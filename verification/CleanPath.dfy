/** Lexical path cleaning, what File::CleanUnixPath of runtime/bin/file.cc has to compute:
    the five rules of "Lexical File Names in Plan 9 or Getting Dot-Dot Right", told over a
    stack of components, and what a cleaned path means. */
module CleanPath {
  import opened Common

  // ---- Paths as lists of components.

  /** The characters up to the next separator. */
  function Head(s: string): (h: string)
    ensures |h| <= |s| && h == s[..|h|] && '/' !in h
    ensures |h| == |s| || s[|h|] == '/'
  {
    if s == "" || s[0] == '/' then "" else [s[0]] + Head(s[1..])
  }

  /** The components of a path; slashes only separate. */
  function Components(s: string): (cs: seq<string>)
    ensures forall i :: 0 <= i < |cs| ==> IsComponent(cs[i])
    decreases |s|
  {
    if s == "" then []
    else if s[0] == '/' then Components(s[1..])
    else [Head(s)] + Components(s[|Head(s)|..])
  }

  predicate IsComponent(c: string) {
    c != "" && '/' !in c
  }

  predicate IsName(c: string) {
    IsComponent(c) && c != "." && c != ".."
  }

  function Join(stack: seq<string>): string {
    if stack == [] then ""
    else if |stack| == 1 then stack[0]
    else Join(stack[..|stack| - 1]) + "/" + stack[|stack| - 1]
  }

  lemma {:induction false} HeadOf(c: string, rest: string)
    requires '/' !in c && (rest == "" || rest[0] == '/')
    ensures Head(c + rest) == c
  {
    if c == "" {
      assert c + rest == rest;
    } else {
      assert (c + rest)[1..] == c[1..] + rest;
      HeadOf(c[1..], rest);
    }
  }

  lemma ComponentsCons(c: string, rest: string)
    requires IsComponent(c) && (rest == "" || rest[0] == '/')
    ensures Components(c + rest) == [c] + Components(rest)
    ensures Components("/" + c + rest) == [c] + Components(rest)
  {
    HeadOf(c, rest);
    assert (c + rest)[|c|..] == rest && (c + rest)[0] == c[0];
    assert ("/" + c + rest)[1..] == c + rest;
  }

  /** Reading back what was joined. */
  lemma {:induction false} ComponentsOfJoin(stack: seq<string>, rest: string)
    requires forall i :: 0 <= i < |stack| ==> IsComponent(stack[i])
    requires rest == "" || rest[0] == '/'
    ensures Components(Join(stack) + rest) == stack + Components(rest)
    decreases |stack|
  {
    if stack == [] {
      assert Join(stack) + rest == rest;
    } else {
      var c, before := stack[|stack| - 1], stack[..|stack| - 1];
      ComponentsCons(c, rest);
      assert stack == before + [c];
      if before == [] {
        hide Components;
      } else {
        ComponentsOfJoin(before, "/" + c + rest);
        hide Components;
        assert Join(stack) == Join(before) + "/" + c;
        hide Join;
        assert Join(before) + "/" + c + rest == Join(before) + ("/" + c + rest);
        assert before + ([c] + Components(rest)) == before + [c] + Components(rest);
      }
    }
  }

  lemma DotComponents()
    ensures Components(".") == ["."]
  {
    ComponentsCons(".", "");
    assert "." + "" == ".";
  }

  // ---- The five rules.

  /** What one component does to the stack of components kept so far. */
  function Step(rooted: bool, stack: seq<string>, c: string): seq<string> {
    if c == "." then stack
    else if c != ".." then stack + [c]
    else if stack != [] && stack[|stack| - 1] != ".." then stack[..|stack| - 1]
    else if rooted then stack
    else stack + [".."]
  }

  function Fold(rooted: bool, stack: seq<string>, cs: seq<string>): seq<string>
    decreases |cs|
  {
    if cs == [] then stack else Fold(rooted, Step(rooted, stack, cs[0]), cs[1..])
  }

  predicate Rooted(s: string) {
    s != "" && s[0] == '/'
  }

  function Stack(s: string): seq<string> {
    Fold(Rooted(s), [], Components(s))
  }

  /** The text of a stack, without the "." that stands for an empty relative path. */
  function Text(rooted: bool, stack: seq<string>): string {
    (if rooted then "/" else "") + Join(stack)
  }

  function Render(rooted: bool, stack: seq<string>): string {
    if !rooted && stack == [] then "." else Text(rooted, stack)
  }

  function Clean(s: string): string {
    Render(Rooted(s), Stack(s))
  }

  /** Normal form: some ".." first, none in a rooted path, then names only. */
  ghost predicate Normal(rooted: bool, stack: seq<string>, ups: nat) {
    && ups <= |stack|
    && (rooted ==> ups == 0)
    && (forall i :: 0 <= i < ups ==> stack[i] == "..")
    && (forall i :: ups <= i < |stack| ==> IsName(stack[i]))
  }

  /** The number of leading ".." after a step. */
  ghost function StepUps(rooted: bool, stack: seq<string>, ups: nat, c: string): nat {
    if c == ".." && !rooted && ups == |stack| then ups + 1 else ups
  }

  lemma StepNormal(rooted: bool, stack: seq<string>, ups: nat, c: string)
    requires Normal(rooted, stack, ups) && IsComponent(c)
    ensures Normal(rooted, Step(rooted, stack, c), StepUps(rooted, stack, ups, c))
  {
  }

  ghost function FoldUps(rooted: bool, stack: seq<string>, ups: nat, cs: seq<string>): nat
    decreases |cs|
  {
    if cs == [] then ups
    else FoldUps(rooted, Step(rooted, stack, cs[0]), StepUps(rooted, stack, ups, cs[0]), cs[1..])
  }

  lemma {:induction false} FoldNormal(rooted: bool, stack: seq<string>, ups: nat, cs: seq<string>)
    requires Normal(rooted, stack, ups) && forall i :: 0 <= i < |cs| ==> IsComponent(cs[i])
    ensures Normal(rooted, Fold(rooted, stack, cs), FoldUps(rooted, stack, ups, cs))
    decreases |cs|
  {
    if cs != [] {
      StepNormal(rooted, stack, ups, cs[0]);
      FoldNormal(rooted, Step(rooted, stack, cs[0]), StepUps(rooted, stack, ups, cs[0]), cs[1..]);
    }
  }

  /** Folding the components of a normal form rebuilds it. */
  lemma {:induction false} FoldOfNormal(rooted: bool, stack: seq<string>, ups: nat, n: nat)
    requires Normal(rooted, stack, ups) && n <= |stack|
    ensures Fold(rooted, stack[..n], stack[n..]) == stack
    decreases |stack| - n
  {
    if n < |stack| {
      assert stack[n..][0] == stack[n] && stack[n..][1..] == stack[n + 1..];
      assert stack[..n] + [stack[n]] == stack[..n + 1];
      assert Step(rooted, stack[..n], stack[n]) == stack[..n + 1] by {
        if n < ups { assert n > 0 ==> stack[..n][n - 1] == ".."; }
      }
      FoldOfNormal(rooted, stack, ups, n + 1);
    } else {
      assert stack[..n] == stack;
    }
  }

  lemma ComponentsOfText(rooted: bool, stack: seq<string>)
    requires forall i :: 0 <= i < |stack| ==> IsComponent(stack[i])
    ensures Components(Text(rooted, stack)) == stack
    ensures stack != [] || rooted ==> Rooted(Text(rooted, stack)) == rooted
  {
    ComponentsOfJoin(stack, "");
    assert Join(stack) + "" == Join(stack);
    if rooted {
      assert Text(rooted, stack)[1..] == Join(stack);
    } else {
      assert Text(rooted, stack) == Join(stack);
      if stack != [] { JoinStart(stack); }
    }
  }

  lemma {:induction false} JoinStart(stack: seq<string>)
    requires stack != [] && IsComponent(stack[0])
    ensures Join(stack) != "" && Join(stack)[0] == stack[0][0] != '/'
  {
    if |stack| > 1 {
      JoinStart(stack[..|stack| - 1]);
    }
  }

  /** How many ".." a cleaned path starts with. */
  ghost function Ups(s: string): nat {
    FoldUps(Rooted(s), [], 0, Components(s))
  }

  lemma StackNormal(s: string)
    ensures Normal(Rooted(s), Stack(s), Ups(s))
  {
    FoldNormal(Rooted(s), [], 0, Components(s));
  }

  /** Cleaning keeps whether a path is rooted, and reading the cleaned path gives the
      same stack. */
  lemma CleanReadsBack(s: string)
    ensures Rooted(Clean(s)) == Rooted(s) && Stack(Clean(s)) == Stack(s)
  {
    StackNormal(s);
    var rooted, stack := Rooted(s), Stack(s);
    if !rooted && stack == [] {
      DotComponents();
      assert Fold(false, [], ["."]) == [];
    } else {
      ComponentsOfText(rooted, stack);
      FoldOfNormal(rooted, stack, Ups(s), 0);
      assert stack[..0] == [] && stack[0..] == stack;
    }
  }

  /** Cleaning twice is cleaning once. */
  lemma CleanIdempotent(s: string)
    ensures Clean(Clean(s)) == Clean(s)
  {
    CleanReadsBack(s);
  }

  // ---- What a path means.

  /** A directory is named by the list of names from the root. */
  type Dir = seq<string>

  /** Following one component in a tree without links; at the root, ".." stays there. */
  function Move(tree: Dir -> bool, at: Dir, c: string): Option<Dir> {
    if c == "." then Some(at)
    else if c == ".." then Some(if at == [] then [] else at[..|at| - 1])
    else if tree(at + [c]) then Some(at + [c])
    else None
  }

  function Follow(tree: Dir -> bool, at: Dir, cs: seq<string>): Option<Dir>
    decreases |cs|
  {
    if cs == [] then Some(at)
    else
      match Move(tree, at, cs[0])
      case None => None
      case Some(next) => Follow(tree, next, cs[1..])
  }

  /** The directory a path leads to from `start`, if every name on the way exists. */
  function Reach(tree: Dir -> bool, start: Dir, s: string): Option<Dir> {
    Follow(tree, if Rooted(s) then [] else start, Components(s))
  }

  lemma {:induction false} FollowSplit(tree: Dir -> bool, at: Dir, cs: seq<string>, ds: seq<string>)
    ensures Follow(tree, at, cs + ds) ==
            match Follow(tree, at, cs) case None => None case Some(mid) => Follow(tree, mid, ds)
    decreases |cs|
  {
    if cs == [] {
      assert cs + ds == ds;
    } else {
      assert (cs + ds)[1..] == cs[1..] + ds;
      match Move(tree, at, cs[0])
      case None =>
      case Some(next) => FollowSplit(tree, next, cs[1..], ds);
    }
  }

  lemma FollowLast(tree: Dir -> bool, at: Dir, stack: seq<string>, c: string)
    ensures Follow(tree, at, stack + [c]) ==
            match Follow(tree, at, stack) case None => None case Some(mid) => Move(tree, mid, c)
  {
    FollowSplit(tree, at, stack, [c]);
    match Follow(tree, at, stack)
    case None =>
    case Some(mid) =>
      assert [c][1..] == [];
  }

  /** If the stack leads where the path read so far has led, it still does after a step. */
  lemma StepMeaning(tree: Dir -> bool, base: Dir, rooted: bool, stack: seq<string>, ups: nat, c: string)
    requires Normal(rooted, stack, ups) && IsComponent(c) && (rooted ==> base == [])
    requires Follow(tree, base, stack).Some? && Move(tree, Follow(tree, base, stack).value, c).Some?
    ensures Follow(tree, base, Step(rooted, stack, c)) == Move(tree, Follow(tree, base, stack).value, c)
  {
    if c == "." {
    } else if c != ".." {
      FollowLast(tree, base, stack, c);
    } else if stack != [] && stack[|stack| - 1] != ".." {
      var before, name := stack[..|stack| - 1], stack[|stack| - 1];
      assert stack == before + [name];
      FollowLast(tree, base, before, name);
      assert IsName(name);
    } else if !rooted {
      FollowLast(tree, base, stack, "..");
    } else {
      assert stack == [];
    }
  }

  lemma {:induction false} FoldMeaning(tree: Dir -> bool, base: Dir, rooted: bool, stack: seq<string>, ups: nat, cs: seq<string>)
    requires Normal(rooted, stack, ups) && (forall i :: 0 <= i < |cs| ==> IsComponent(cs[i])) && (rooted ==> base == [])
    requires Follow(tree, base, stack).Some? && Follow(tree, Follow(tree, base, stack).value, cs).Some?
    ensures Follow(tree, base, Fold(rooted, stack, cs)) == Follow(tree, Follow(tree, base, stack).value, cs)
    decreases |cs|
  {
    if cs != [] {
      StepMeaning(tree, base, rooted, stack, ups, cs[0]);
      StepNormal(rooted, stack, ups, cs[0]);
      FoldMeaning(tree, base, rooted, Step(rooted, stack, cs[0]), StepUps(rooted, stack, ups, cs[0]), cs[1..]);
    }
  }

  lemma StackMeaning(tree: Dir -> bool, start: Dir, s: string)
    requires Reach(tree, start, s).Some?
    ensures Follow(tree, if Rooted(s) then [] else start, Stack(s)) == Reach(tree, start, s)
  {
    FoldMeaning(tree, if Rooted(s) then [] else start, Rooted(s), [], 0, Components(s));
  }

  /** Cleaning keeps meaning: wherever a path leads, in any tree and from any starting
      directory, the cleaned path leads to the same directory. */
  lemma CleanKeepsMeaning(tree: Dir -> bool, start: Dir, s: string)
    requires Reach(tree, start, s).Some?
    ensures Reach(tree, start, Clean(s)) == Reach(tree, start, s)
  {
    StackMeaning(tree, start, s);
    CleanReadsBack(s);
    StackNormal(s);
    if !Rooted(s) && Stack(s) == [] {
      DotComponents();
      assert Follow(tree, start, ["."]) == Some(start) by {
        assert ["."][1..] == [];
      }
    } else {
      ComponentsOfText(Rooted(s), Stack(s));
    }
  }

  /** The directories a path enters by name. */
  function Entered(at: Dir, cs: seq<string>): set<Dir>
    decreases |cs|
  {
    if cs == [] then {}
    else if cs[0] == "." then Entered(at, cs[1..])
    else if cs[0] == ".." then Entered(if at == [] then [] else at[..|at| - 1], cs[1..])
    else {at + [cs[0]]} + Entered(at + [cs[0]], cs[1..])
  }

  function EnteredBy(start: Dir, s: string): set<Dir> {
    Entered(if Rooted(s) then [] else start, Components(s))
  }

  ghost predicate AllExist(tree: Dir -> bool, dirs: set<Dir>) {
    forall d :: d in dirs ==> tree(d)
  }

  /** A path leads somewhere exactly when all of them exist. */
  lemma {:induction false} LeadsSomewhereIff(tree: Dir -> bool, at: Dir, cs: seq<string>)
    ensures Follow(tree, at, cs).Some? <==> AllExist(tree, Entered(at, cs))
    decreases |cs|
  {
    if cs != [] {
      var c := cs[0];
      if c == "." {
        LeadsSomewhereIff(tree, at, cs[1..]);
      } else if c == ".." {
        LeadsSomewhereIff(tree, if at == [] then [] else at[..|at| - 1], cs[1..]);
      } else {
        LeadsSomewhereIff(tree, at + [c], cs[1..]);
        assert AllExist(tree, Entered(at, cs)) <==> tree(at + [c]) && AllExist(tree, Entered(at + [c], cs[1..]));
      }
    }
  }

  /** In one tree, a path and its cleaned form agree exactly when every directory the path
      enters exists, or some directory the cleaned form enters does not. */
  lemma CleanAgreesIff(tree: Dir -> bool, start: Dir, s: string)
    ensures Reach(tree, start, Clean(s)) == Reach(tree, start, s) <==>
            AllExist(tree, EnteredBy(start, s)) || !AllExist(tree, EnteredBy(start, Clean(s)))
  {
    LeadsSomewhereIff(tree, if Rooted(s) then [] else start, Components(s));
    LeadsSomewhereIff(tree, if Rooted(Clean(s)) then [] else start, Components(Clean(s)));
    if Reach(tree, start, s).Some? {
      CleanKeepsMeaning(tree, start, s);
    }
  }

  /** They agree in every tree exactly when cleaning drops no directory that the path enters,
      which only takes looking at the path. */
  lemma CleanAgreesEverywhereIff(start: Dir, s: string)
    ensures (forall tree: Dir -> bool :: Reach(tree, start, Clean(s)) == Reach(tree, start, s)) <==>
            EnteredBy(start, s) <= EnteredBy(start, Clean(s))
  {
    forall tree: Dir -> bool | EnteredBy(start, s) <= EnteredBy(start, Clean(s))
      ensures Reach(tree, start, Clean(s)) == Reach(tree, start, s)
    {
      CleanAgreesIff(tree, start, s);
    }
    var kept: Dir -> bool := d => d in EnteredBy(start, Clean(s));
    CleanAgreesIff(kept, start, s);
    assert AllExist(kept, EnteredBy(start, Clean(s)));
    assert AllExist(kept, EnteredBy(start, s)) ==> EnteredBy(start, s) <= EnteredBy(start, Clean(s));
  }

  /** So a cleaned path may lead somewhere although the path itself names a directory that
      does not exist. */
  lemma CleanMayRepairAPath()
    ensures var tree: Dir -> bool := d => d == [];
            Reach(tree, [], "a/..").None? && Reach(tree, [], Clean("a/..")) == Some([])
  {
    ComponentsCons("a", "/..");
    ComponentsCons("..", "");
    assert "a" + "/.." == "a/.." && "/" + ".." + "" == "/..";
    assert Components("a/..") == ["a", ".."];
    assert Fold(false, [], ["a", ".."]) == Fold(false, ["a"], [".."]) == Fold(false, [], []) == [];
    DotComponents();
  }

  // ---- The cleaned path is canonical.

  /** The tree in which every name exists. */
  function AllDirs(): Dir -> bool {
    d => true
  }

  /** Where a normal form leads: some levels up, then down its names. */
  ghost function Destination(base: Dir, stack: seq<string>, ups: nat): Dir
    requires ups <= |stack|
  {
    base[..if |base| < ups then 0 else |base| - ups] + stack[ups..]
  }

  lemma {:induction false} NormalMeaning(base: Dir, rooted: bool, stack: seq<string>, ups: nat)
    requires Normal(rooted, stack, ups)
    ensures Follow(AllDirs(), base, stack) == Some(Destination(base, stack, ups))
    decreases |stack|
  {
    if stack == [] {
      assert Destination(base, stack, ups) == base;
    } else {
      var before, c := stack[..|stack| - 1], stack[|stack| - 1];
      assert stack == before + [c];
      FollowLast(AllDirs(), base, before, c);
      if ups < |stack| {
        assert before[ups..] + [c] == stack[ups..];
        NormalMeaning(base, rooted, before, ups);
        assert Destination(base, before, ups) + [c] == Destination(base, stack, ups);
      } else {
        NormalMeaning(base, rooted, before, ups - 1);
        var d := Destination(base, before, ups - 1);
        assert before[ups - 1..] == [] && stack[ups..] == [];
        assert (if d == [] then [] else d[..|d| - 1]) == Destination(base, stack, ups);
      }
    }
  }

  /** A name other than the given one. */
  function OtherName(c: string): (d: string)
    ensures d != c && IsName(d)
  {
    if c == "a" then "b" else "a"
  }

  /** A directory deep enough for m levels up, of names other than the one `t` goes
      down to first. */
  ghost function Deep(t: seq<string>, m: nat): Dir {
    seq(m, i => if m < |t| then OtherName(t[m]) else "a")
  }

  /** Relative normal forms that go a different number of levels up part company. */
  lemma DifferentUps(s: seq<string>, k: nat, t: seq<string>, m: nat)
    requires Normal(false, s, k) && Normal(false, t, m) && k < m
    ensures Follow(AllDirs(), Deep(t, m), s) != Follow(AllDirs(), Deep(t, m), t)
  {
    var deep := Deep(t, m);
    NormalMeaning(deep, false, s, k);
    NormalMeaning(deep, false, t, m);
    var ds, dt := Destination(deep, s, k), Destination(deep, t, m);
    assert dt == t[m..];
    assert |ds| > 0 && ds[0] == deep[0];
    assert |dt| > 0 ==> dt[0] == t[m];
  }

  ghost predicate SameMeaning(start: Dir, s: string, t: string) {
    Reach(AllDirs(), start, s) == Reach(AllDirs(), start, t)
  }

  lemma SameStackMeaning(start: Dir, s: string, t: string)
    requires Rooted(s) == Rooted(t) && SameMeaning(start, s, t)
    ensures var base := if Rooted(s) then [] else start; Follow(AllDirs(), base, Stack(s)) == Follow(AllDirs(), base, Stack(t))
  {
    var base := if Rooted(s) then [] else start;
    EveryPathLeadsSomewhere(base, Components(s));
    EveryPathLeadsSomewhere(base, Components(t));
    StackMeaning(AllDirs(), start, s);
    StackMeaning(AllDirs(), start, t);
  }

  lemma NotFewerUps(s: string, t: string)
    requires Rooted(s) == Rooted(t) && SameMeaning(Deep(Stack(t), Ups(t)), s, t)
    ensures Ups(t) <= Ups(s)
  {
    StackNormal(s);
    StackNormal(t);
    SameStackMeaning(Deep(Stack(t), Ups(t)), s, t);
    if Ups(s) < Ups(t) {
      DifferentUps(Stack(s), Ups(s), Stack(t), Ups(t));
    }
  }

  lemma SameStack(rooted: bool, s: seq<string>, t: seq<string>, k: nat)
    requires Normal(rooted, s, k) && Normal(rooted, t, k) && Follow(AllDirs(), [], s) == Follow(AllDirs(), [], t)
    ensures s == t
  {
    NormalMeaning([], rooted, s, k);
    NormalMeaning([], rooted, t, k);
    assert s[k..] == Destination([], s, k) == Destination([], t, k) == t[k..];
    assert s[..k] == t[..k];
    assert s == s[..k] + s[k..] && t == t[..k] + t[k..];
  }

  /** Two paths, both rooted or both relative, that lead to the same directory from every
      starting directory clean to the same string. */
  lemma CleanIsCanonical(s: string, t: string)
    requires Rooted(s) == Rooted(t)
    requires forall start: Dir :: SameMeaning(start, s, t)
    ensures Clean(s) == Clean(t)
  {
    assert SameMeaning(Deep(Stack(s), Ups(s)), s, t) && SameMeaning(Deep(Stack(s), Ups(s)), t, s);
    NotFewerUps(t, s);
    NotFewerUps(s, t);
    StackNormal(s);
    StackNormal(t);
    assert SameMeaning([], s, t);
    SameStackMeaning([], s, t);
    SameStack(Rooted(s), Stack(s), Stack(t), Ups(s));
  }

  /** And conversely: paths that clean to the same string mean the same. */
  lemma SameCleanSameMeaning(s: string, t: string, start: Dir)
    requires Clean(s) == Clean(t)
    ensures SameMeaning(start, s, t)
  {
    EveryPathLeadsSomewhere(if Rooted(s) then [] else start, Components(s));
    EveryPathLeadsSomewhere(if Rooted(t) then [] else start, Components(t));
    CleanKeepsMeaning(AllDirs(), start, s);
    CleanKeepsMeaning(AllDirs(), start, t);
  }

  lemma {:induction false} EveryPathLeadsSomewhere(at: Dir, cs: seq<string>)
    ensures Follow(AllDirs(), at, cs).Some?
    decreases |cs|
  {
    if cs != [] {
      EveryPathLeadsSomewhere(Move(AllDirs(), at, cs[0]).value, cs[1..]);
    }
  }
}
