/** The character-buffer algorithm of File::CleanUnixPath, proved to compute the
    component-stack normal form of module CleanPath. */
module CleanUnixPath {
  import opened Common
  import opened CleanPath

  predicate IsSeparator(c: char) {
    c == '/' || c == NUL
  }

  /** The stack that results from reading the input from index i on. */
  ghost function Rest(rooted: bool, stack: seq<string>, input: string, i: nat): seq<string>
    requires i <= |input|
  {
    Fold(rooted, stack, Components(input[i..]))
  }

  lemma SkipSlash(rooted: bool, stack: seq<string>, input: string, i: nat)
    requires i < |input| && input[i] == '/'
    ensures Rest(rooted, stack, input, i) == Rest(rooted, stack, input, i + 1)
  {
    assert input[i..][1..] == input[i + 1..];
  }

  lemma TakeComponent(rooted: bool, stack: seq<string>, input: string, i: nat, c: string)
    requires i + |c| <= |input| && input[i..i + |c|] == c && IsComponent(c)
    requires i + |c| == |input| || input[i + |c|] == '/'
    ensures Rest(rooted, stack, input, i) == Rest(rooted, Step(rooted, stack, c), input, i + |c|)
  {
    var rest := input[i + |c|..];
    assert input[i..] == c + rest;
    ComponentsCons(c, rest);
    assert ([c] + Components(rest))[1..] == Components(rest);
  }

  lemma TextGrows(rooted: bool, stack: seq<string>, c: string)
    ensures Text(rooted, stack + [c]) == Text(rooted, stack) + (if stack == [] then "" else "/") + c
  {
    assert (stack + [c])[..|stack|] == stack;
  }

  lemma {:induction false} JoinLength(stack: seq<string>, k: nat)
    requires k <= |stack| && forall i :: 0 <= i < |stack| ==> stack[i] != ""
    ensures |Join(stack[..k])| <= |Join(stack)| && (k < |stack| ==> |Join(stack[..k])| < |Join(stack)|)
    decreases |stack|
  {
    if k < |stack| {
      var before := stack[..|stack| - 1];
      JoinLength(before, k);
      assert before[..k] == stack[..k];
    } else {
      assert stack[..k] == stack;
    }
  }

  /** The buffer holds the text of the stack, `dotdot` is the end of its leading ".."s. */
  ghost predicate Holds(buffer: seq<char>, rooted: bool, stack: seq<string>, ups: nat, dotdot: nat) {
    && Normal(rooted, stack, ups)
    && buffer == Text(rooted, stack)
    && dotdot == |Text(rooted, stack[..ups])|
  }

  /** The output has grown past `dotdot` exactly when the stack has a name to drop. */
  lemma PastDotDot(buffer: seq<char>, rooted: bool, stack: seq<string>, ups: nat, dotdot: nat)
    requires Holds(buffer, rooted, stack, ups, dotdot)
    ensures dotdot <= |buffer| && (|buffer| > dotdot <==> |stack| > ups)
    ensures |buffer| == (if rooted then 1 else 0) <==> stack == []
  {
    JoinLength(stack, ups);
    JoinLength(stack, 0);
    if |stack| == ups { assert stack[..ups] == stack; }
  }

  /** Where the last component starts, counting the separator before it. */
  lemma LastComponent(buffer: seq<char>, rooted: bool, stack: seq<string>, ups: nat, dotdot: nat)
    requires Holds(buffer, rooted, stack, ups, dotdot) && |stack| > ups
    ensures var before := stack[..|stack| - 1];
            var stop := |Text(rooted, before)|;
            && dotdot <= stop < |buffer| && Holds(buffer[..stop], rooted, before, ups, dotdot)
            && (stop > dotdot ==> buffer[stop] == '/')
            && (forall j :: stop < j < |buffer| ==> buffer[j] != '/')
  {
    var before, name := stack[..|stack| - 1], stack[|stack| - 1];
    assert before + [name] == stack && before[..ups] == stack[..ups];
    assert Normal(rooted, before, ups);
    hide Join;
    var text, gap := Text(rooted, before), if before == [] then "" else "/";
    TextGrows(rooted, before, name);
    JoinLength(before, ups);
    NoSlashAfter(text, gap, name);
    assert buffer[..|text|] == text;
  }

  lemma NoSlashAfter(text: string, gap: string, name: string)
    requires '/' !in name && |gap| <= 1
    ensures forall j :: |text| < j < |text + gap + name| ==> (text + gap + name)[j] != '/'
  {
    forall j | |text| < j < |text + gap + name| ensures (text + gap + name)[j] != '/' {
      assert (text + gap + name)[j] == name[j - |text| - |gap|];
    }
  }

  /** Scans back over the last component and the separator before it. */
  method Backtrack(out: array<char>, outIndex: nat, dotdot: nat, ghost stop: nat) returns (newIndex: nat)
    requires dotdot <= stop < outIndex <= out.Length && (stop > dotdot ==> out[stop] == '/')
    requires forall j :: stop < j < outIndex ==> out[j] != '/'
    ensures newIndex == stop
  {
    newIndex := outIndex - 1;
    while newIndex > dotdot && out[newIndex] != '/'
      invariant stop <= newIndex < outIndex
    {
      newIndex := newIndex - 1;
    }
  }

  lemma HoldsUp(rooted: bool, stack: seq<string>, ups: nat, dotdot: nat)
    requires Holds(Text(rooted, stack), rooted, stack, ups, dotdot) && !rooted && |stack| == ups
    ensures var stack' := stack + [".."];
            && Step(rooted, stack, "..") == stack' && StepUps(rooted, stack, ups, "..") == ups + 1
            && Holds(Text(rooted, stack'), rooted, stack', ups + 1, |Text(rooted, stack')|)
            && Text(rooted, stack') == Text(rooted, stack) + (if stack == [] then "" else "/") + ".."
  {
    StepNormal(rooted, stack, ups, "..");
    TextGrows(rooted, stack, "..");
    assert (stack + [".."])[..ups + 1] == stack + [".."];
  }

  lemma HoldsName(rooted: bool, stack: seq<string>, ups: nat, dotdot: nat, c: string)
    requires Holds(Text(rooted, stack), rooted, stack, ups, dotdot) && IsName(c)
    ensures var stack' := stack + [c];
            && Step(rooted, stack, c) == stack' && Holds(Text(rooted, stack'), rooted, stack', ups, dotdot)
            && Text(rooted, stack') == Text(rooted, stack) + (if stack == [] then "" else "/") + c
  {
    StepNormal(rooted, stack, ups, c);
    TextGrows(rooted, stack, c);
    assert (stack + [c])[..ups] == stack[..ups];
  }

  /** Writes ".." after what is there, with a separator in between if needed. */
  method AppendUp(out: array<char>, outIndex: nat) returns (newOut: nat)
    requires outIndex + (if outIndex == 0 then 2 else 3) <= out.Length
    modifies out
    ensures newOut == outIndex + (if outIndex == 0 then 2 else 3)
    ensures out[..newOut] == old(out[..outIndex]) + (if outIndex == 0 then "" else "/") + ".."
  {
    newOut := outIndex;
    if outIndex > 0 {
      out[newOut] := '/';
      newOut := newOut + 1;
    }
    out[newOut], out[newOut + 1] := '.', '.';
    newOut := newOut + 2;
  }

  /** Handles a ".." component: drops the last name, keeps the root, or appends "..". */
  method DotDot(out: array<char>, outIndex: nat, dotdot: nat, rooted: bool, ghost stack: seq<string>, ghost ups: nat)
    returns (newOut: nat, newDotdot: nat)
    requires outIndex + (if stack == [] then 2 else 3) <= out.Length && Holds(out[..outIndex], rooted, stack, ups, dotdot)
    modifies out
    ensures newOut <= outIndex + (if stack == [] then 2 else 3)
    ensures Holds(out[..newOut], rooted, Step(rooted, stack, ".."), StepUps(rooted, stack, ups, ".."), newDotdot)
  {
    ghost var buffer := out[..outIndex];
    PastDotDot(buffer, rooted, stack, ups, dotdot);
    newOut, newDotdot := outIndex, dotdot;
    if outIndex > dotdot {
      LastComponent(buffer, rooted, stack, ups, dotdot);
      ghost var stop := |Text(rooted, stack[..|stack| - 1])|;
      newOut := Backtrack(out, outIndex, dotdot, stop);
      assert out[..stop] == buffer[..stop];
    } else if !rooted {
      HoldsUp(rooted, stack, ups, dotdot);
      newOut := AppendUp(out, outIndex);
      newDotdot := newOut;
    }
  }

  /** The component at index i, when it is neither "." nor "..". */
  ghost function NameAt(input: string, i: nat): (c: string)
    requires NoNul(input) && i < |input| && input[i] != '/'
    requires !(input[i] == '.' && IsSeparator(CharAt(input, i + 1, NUL)))
    requires !(input[i] == '.' && CharAt(input, i + 1, NUL) == '.' && IsSeparator(CharAt(input, i + 2, NUL)))
    ensures c == Head(input[i..]) && IsName(c) && i + |c| <= |input| && input[i..i + |c|] == c
    ensures i + |c| == |input| || input[i + |c|] == '/'
  {
    var c := Head(input[i..]);
    assert c == input[i..][..|c|] == input[i..i + |c|];
    assert |c| < |input[i..]| ==> input[i..][|c|] == input[i + |c|];
    assert |c| >= 1 && c[0] == input[i] && (|c| >= 2 ==> c[1] == input[i + 1]);
    c
  }

  /** Copies the component at `inIndex`, after a separator if asked; fails when the input
      is too long for the buffer. */
  method CopyComponent(input: string, inIndex: nat, out: array<char>, outIndex: nat, slash: bool)
    returns (ok: bool, newIn: nat, newOut: nat)
    requires NoNul(input) && inIndex < |input| && input[inIndex] != '/'
    requires outIndex + (if slash then 1 else 0) <= inIndex <= out.Length
    modifies out
    ensures !ok ==> |input| >= out.Length
    ensures ok ==> newIn == inIndex + |Head(input[inIndex..])| < out.Length && newOut <= newIn
    ensures ok ==> out[..newOut] == old(out[..outIndex]) + (if slash then "/" else "") + Head(input[inIndex..])
  {
    newIn, newOut := inIndex, outIndex;
    if slash {
      out[newOut] := '/';
      newOut := newOut + 1;
    }
    ghost var text := out[..newOut];
    while !IsSeparator(CharAt(input, newIn, NUL))
      invariant inIndex <= newIn <= |input| && (newIn == inIndex || newIn < out.Length)
      invariant newOut == |text| + (newIn - inIndex) <= newIn
      invariant out[..newOut] == text + input[inIndex..newIn]
      invariant '/' !in input[inIndex..newIn]
      decreases |input| - newIn
    {
      if newIn + 1 >= out.Length {
        return false, newIn, newOut;
      }
      ghost var more := input[inIndex..newIn + 1];
      assert more == input[inIndex..newIn] + [input[newIn]];
      out[newOut] := input[newIn];
      newOut, newIn := newOut + 1, newIn + 1;
    }
    assert input[inIndex..] == input[inIndex..newIn] + input[newIn..];
    HeadOf(input[inIndex..newIn], input[newIn..]);
    ok := true;
  }

  /** What the main loop keeps: the output is the text of a stack, never longer than the
      input read, and what is still to be read completes the stack to that of the input. */
  ghost predicate Midway(input: string, inIndex: nat, capacity: nat, buffer: seq<char>,
                         rooted: bool, stack: seq<string>, ups: nat, dotdot: nat)
  {
    && |buffer| <= inIndex <= |input| && (inIndex < capacity || (inIndex == capacity && inIndex < |input|))
    && Holds(buffer, rooted, stack, ups, dotdot)
    && (stack == [] || |buffer| < inIndex || IsSeparator(CharAt(input, inIndex, NUL)))
    && Rest(rooted, stack, input, inIndex) == Stack(input)
  }

  /** Handles a component that is a name. */
  method NameStep(input: string, inIndex: nat, out: array<char>, outIndex: nat, rooted: bool, dotdot: nat,
                  ghost stack: seq<string>, ghost ups: nat, ghost c: string)
    returns (ok: bool, newIn: nat, newOut: nat)
    requires NoNul(input) && inIndex < |input| && outIndex <= out.Length && input[inIndex] != '/'
    requires Midway(input, inIndex, out.Length, out[..outIndex], rooted, stack, ups, dotdot)
    requires c == Head(input[inIndex..]) && IsName(c)
    modifies out
    ensures !ok ==> |input| >= out.Length
    ensures ok ==> inIndex < newIn && newOut <= out.Length
    ensures ok ==> Midway(input, newIn, out.Length, out[..newOut], rooted, Step(rooted, stack, c), ups, dotdot)
  {
    hide Normal, Head, Components, Fold, Join, Step;
    PastDotDot(out[..outIndex], rooted, stack, ups, dotdot);
    HoldsName(rooted, stack, ups, dotdot, c);
    assert input[inIndex..][..|c|] == input[inIndex..inIndex + |c|];
    assert |c| < |input[inIndex..]| ==> input[inIndex..][|c|] == input[inIndex + |c|];
    TakeComponent(rooted, stack, input, inIndex, c);
    var slash := (rooted && outIndex != 1) || (!rooted && outIndex != 0);
    ok, newIn, newOut := CopyComponent(input, inIndex, out, outIndex, slash);
  }

  lemma MidwayHolds(input: string, i: nat, capacity: nat, buffer: seq<char>, rooted: bool, stack: seq<string>, ups: nat, dotdot: nat)
    requires Midway(input, i, capacity, buffer, rooted, stack, ups, dotdot)
    ensures |buffer| <= i <= |input| && i <= capacity && Holds(buffer, rooted, stack, ups, dotdot)
    ensures stack == [] || |buffer| < i || IsSeparator(CharAt(input, i, NUL))
  {
  }

  lemma PastSlash(input: string, i: nat, capacity: nat, buffer: seq<char>, rooted: bool, stack: seq<string>, ups: nat, dotdot: nat)
    requires Midway(input, i, capacity, buffer, rooted, stack, ups, dotdot)
    requires i < |input| && input[i] == '/' && i + 1 < capacity
    ensures Midway(input, i + 1, capacity, buffer, rooted, stack, ups, dotdot)
  {
    SkipSlash(rooted, stack, input, i);
  }

  lemma PastDot(input: string, i: nat, capacity: nat, buffer: seq<char>, rooted: bool, stack: seq<string>, ups: nat, dotdot: nat)
    requires NoNul(input) && Midway(input, i, capacity, buffer, rooted, stack, ups, dotdot)
    requires i < |input| && input[i] == '.' && IsSeparator(CharAt(input, i + 1, NUL)) && i + 1 < capacity
    ensures Midway(input, i + 1, capacity, buffer, rooted, stack, ups, dotdot)
  {
    TakeComponent(rooted, stack, input, i, ".");
  }

  lemma PastUp(input: string, i: nat, capacity: nat, buffer: seq<char>, rooted: bool, stack: seq<string>, ups: nat, dotdot: nat,
               buffer': seq<char>, dotdot': nat)
    requires NoNul(input) && Midway(input, i, capacity, buffer, rooted, stack, ups, dotdot)
    requires i + 1 < |input| && input[i] == '.' && input[i + 1] == '.' && IsSeparator(CharAt(input, i + 2, NUL)) && i + 2 < capacity
    requires Holds(buffer', rooted, Step(rooted, stack, ".."), StepUps(rooted, stack, ups, ".."), dotdot')
    requires |buffer'| <= |buffer| + (if stack == [] then 2 else 3)
    ensures Midway(input, i + 2, capacity, buffer', rooted, Step(rooted, stack, ".."), StepUps(rooted, stack, ups, ".."), dotdot')
  {
    TakeComponent(rooted, stack, input, i, "..");
  }

  /** One turn of the main loop. */
  method OneStep(input: string, inIndex: nat, out: array<char>, outIndex: nat, rooted: bool, dotdot: nat,
                 ghost stack: seq<string>, ghost ups: nat)
    returns (ok: bool, newIn: nat, newOut: nat, newDotdot: nat, ghost newStack: seq<string>, ghost newUps: nat)
    requires NoNul(input) && inIndex < |input| && outIndex <= out.Length
    requires Midway(input, inIndex, out.Length, out[..outIndex], rooted, stack, ups, dotdot)
    modifies out
    ensures !ok ==> |input| >= out.Length
    ensures ok ==> inIndex < newIn && newOut <= out.Length
    ensures ok ==> Midway(input, newIn, out.Length, out[..newOut], rooted, newStack, newUps, newDotdot)
  {
    hide Midway, Holds, Step, StepUps;
    ok, newIn, newOut, newDotdot, newStack, newUps := true, inIndex, outIndex, dotdot, stack, ups;
    if input[inIndex] == '/' {
      // Several slashes count as one.
      if inIndex + 1 >= out.Length { ok := false; return; }
      PastSlash(input, inIndex, out.Length, out[..outIndex], rooted, stack, ups, dotdot);
      newIn := inIndex + 1;
    } else if input[inIndex] == '.' && IsSeparator(CharAt(input, inIndex + 1, NUL)) {
      // A component "." is dropped.
      if inIndex + 1 >= out.Length { ok := false; return; }
      PastDot(input, inIndex, out.Length, out[..outIndex], rooted, stack, ups, dotdot);
      newIn := inIndex + 1;
    } else if input[inIndex] == '.' && CharAt(input, inIndex + 1, NUL) == '.' && IsSeparator(CharAt(input, inIndex + 2, NUL)) {
      if inIndex + 2 >= out.Length { ok := false; return; }
      ghost var buffer := out[..outIndex];
      MidwayHolds(input, inIndex, out.Length, buffer, rooted, stack, ups, dotdot);
      newOut, newDotdot := DotDot(out, outIndex, dotdot, rooted, stack, ups);
      newStack, newUps := Step(rooted, stack, ".."), StepUps(rooted, stack, ups, "..");
      PastUp(input, inIndex, out.Length, buffer, rooted, stack, ups, dotdot, out[..newOut], newDotdot);
      newIn := inIndex + 2;
    } else {
      ghost var c := NameAt(input, inIndex);
      ok, newIn, newOut := NameStep(input, inIndex, out, outIndex, rooted, dotdot, stack, ups, c);
      newStack := Step(rooted, stack, c);
    }
  }

  /** When everything is read, the buffer is the cleaned path, unless that is ".". */
  lemma AllRead(input: string, capacity: nat, buffer: seq<char>, rooted: bool, stack: seq<string>, ups: nat, dotdot: nat)
    requires Midway(input, |input|, capacity, buffer, rooted, stack, ups, dotdot) && rooted == Rooted(input)
    ensures Clean(input) == if buffer == "" then "." else buffer
  {
    PastDotDot(buffer, rooted, stack, ups, dotdot);
    assert input[|input|..] == "";
  }

  /** The start of the output is inside the buffer: the leading slash of a rooted path is
      written, and the NUL behind the path "/", before any length is compared. */
  predicate FitsStart(input: string, capacity: nat) {
    Rooted(input) ==> capacity >= 1 && (input == "/" ==> capacity >= 2)
  }

  lemma NothingRead(input: string, capacity: nat)
    requires FitsStart(input, capacity) && input != ""
    ensures Midway(input, if Rooted(input) then 1 else 0, capacity, if Rooted(input) then "/" else "",
                   Rooted(input), [], 0, if Rooted(input) then 1 else 0)
  {
    assert input[0..] == input;
    if Rooted(input) {
      SkipSlash(true, [], input, 0);
    }
  }

  /** Prints ".", or as much of it as fits before a NUL. */
  method PrintDot(out: array<char>)
    modifies out
    ensures out.Length >= 2 ==> out[..1] == "." && out[1] == NUL
    ensures out.Length == 1 ==> out[0] == NUL
  {
    if out.Length >= 2 {
      out[0], out[1] := '.', NUL;
    } else if out.Length == 1 {
      out[0] := NUL;
    }
  }

  /** Cleans `input` into `out`: -1 exactly when a path is too long for the buffer, and
      otherwise the length of the cleaned path, which is there with a NUL behind it. Only for
      the empty path is the length returned without the buffer being long enough for it. */
  method CleanUnixPath(input: string, out: array<char>) returns (r: int)
    requires NoNul(input) && FitsStart(input, out.Length)
    modifies out
    ensures r == -1 <==> input != "" && |input| >= out.Length
    ensures r != -1 ==> r == |Clean(input)|
    ensures r != -1 && (input != "" || out.Length >= 2) ==> r < out.Length && out[..r] == Clean(input) && out[r] == NUL
    ensures input == "" && out.Length == 1 ==> out[0] == NUL
  {
    if CharAt(input, 0, NUL) == NUL {
      PrintDot(out);
      return 1;
    }
    var rooted := input[0] == '/';
    var inIndex: nat, outIndex: nat := 0, 0;
    if rooted {
      out[0] := '/';
      outIndex, inIndex := 1, 1;
    }
    var dotdot := outIndex;
    ghost var stack: seq<string>, ups: nat := [], 0;
    NothingRead(input, out.Length);
    assert out[..outIndex] == if rooted then "/" else "";
    while CharAt(input, inIndex, NUL) != NUL
      invariant inIndex <= |input| && outIndex <= out.Length
      invariant Midway(input, inIndex, out.Length, out[..outIndex], rooted, stack, ups, dotdot)
      decreases |input| - inIndex
    {
      var ok: bool;
      ok, inIndex, outIndex, dotdot, stack, ups := OneStep(input, inIndex, out, outIndex, rooted, dotdot, stack, ups);
      if !ok {
        return -1;
      }
    }
    AllRead(input, out.Length, out[..outIndex], rooted, stack, ups, dotdot);
    if outIndex == 0 {
      PrintDot(out);
      return 1;
    }
    out[outIndex] := NUL;
    return outIndex;
  }
}
