/** The path buffer of runtime/bin/directory_linux.cc: a fixed array that names are
    appended to and cut back from. */
module Paths {
  import opened Common

  const PATH_MAX: nat := 4096

  /** What a buffer shows: its C string, and the length it believes that string has. */
  datatype Buffer = Buffer(text: string, length: nat)

  /** What fits of a path: one byte is kept for the terminator. */
  function Shown(path: string): (s: string)
    ensures |path| < PATH_MAX ==> s == path
    ensures |s| < PATH_MAX
  {
    if |path| < PATH_MAX then path else path[..PATH_MAX - 1]
  }

  /** A path of this length is accepted, and shown without its last character. */
  predicate IsCut(path: string) {
    |path| == PATH_MAX
  }

  /** The buffer after `path` has been built up in it. */
  function Showing(path: string): Buffer {
    Buffer(Shown(path), |path|)
  }

  /** Appending: a name is accepted when the sum of lengths is at most PATH_MAX, although
      only PATH_MAX - 1 characters fit; what does not fit is cut off. */
  function AddTo(b: Buffer, name: string): (Buffer, bool)
    requires b.length <= |b.text| || b.length == PATH_MAX
  {
    var fits := b.length + |name| <= PATH_MAX;
    var text := if b.length == PATH_MAX then b.text else Shown(b.text[..b.length] + name);
    (Buffer(text, if fits then b.length + |name| else b.length), fits)
  }

  function ResetTo(b: Buffer, length: nat): Buffer
    requires length <= |b.text| || length == PATH_MAX
  {
    Buffer(if length == PATH_MAX then b.text else b.text[..length], length)
  }

  /** Appending to a buffer that shows a path: the result shows the longer path if that is
      accepted at all. It is shown whole exactly when it is shorter than PATH_MAX. */
  lemma AddShows(path: string, name: string)
    requires |path| <= PATH_MAX
    ensures Showing(path).length <= |Showing(path).text| || Showing(path).length == PATH_MAX
    ensures var (b, ok) := AddTo(Showing(path), name);
            && (ok <==> |path + name| <= PATH_MAX)
            && b.text == Shown(path + name)
            && (ok ==> b == Showing(path + name))
            && (!ok ==> b.length == |path|)
            && (b.text == path + name <==> |path + name| < PATH_MAX)
  {
    if |path| == PATH_MAX {
      assert (path + name)[..PATH_MAX - 1] == path[..PATH_MAX - 1];
    } else {
      assert Shown(path)[..|path|] == path;
    }
  }

  /** At the boundary an append succeeds and loses the last character. */
  lemma AddTruncatesAtLimit(path: string, name: string)
    requires |path| + |name| == PATH_MAX && name != ""
    ensures var (b, ok) := AddTo(Showing(path), name); ok && b.text == (path + name)[..PATH_MAX - 1] != path + name
  {
    AddShows(path, name);
  }

  /** A path that is shown whole has room for the separator, one that is cut short has not. */
  lemma SeparatorShows(path: string)
    requires |path| <= PATH_MAX
    ensures Showing(path).length <= |Showing(path).text| || Showing(path).length == PATH_MAX
    ensures AddTo(Showing(path), "/") == if IsCut(path) then (Showing(path), false) else (Showing(path + "/"), true)
    ensures IsCut(path) || Shown(path) == path
  {
    AddShows(path, "/");
  }

  /** Cutting back to an earlier path restores it, whatever was appended since. */
  lemma ResetRestores(path: string, more: string)
    requires |path| <= PATH_MAX
    ensures Showing(path).length <= |Shown(path + more)| || Showing(path).length == PATH_MAX
    ensures forall b: Buffer :: b.text == Shown(path + more) ==> ResetTo(b, |path|) == Showing(path)
  {
    if |path| == PATH_MAX {
      assert (path + more)[..PATH_MAX - 1] == path[..PATH_MAX - 1];
    } else {
      assert Shown(path + more)[..|path|] == path;
    }
  }

  /** The buffer still shows the directory's path, with something behind it. */
  ghost predicate Under(base: string, text: string) {
    |base| <= PATH_MAX && if |base| < PATH_MAX then base <= text else text == Shown(base)
  }

  /** Cutting the buffer back to a directory's path and appending a name. */
  lemma NamePath(path: Buffer, base: string, name: string)
    requires Under(base, path.text) && |path.text| < PATH_MAX
    ensures |base| <= |path.text| || |base| == PATH_MAX
    ensures ResetTo(path, |base|) == Showing(base)
    ensures var (path', ok) := AddTo(Showing(base), name);
            && path'.text == Shown(base + name) && Under(base, path'.text)
            && (ok <==> |base + name| <= PATH_MAX)
            && (|base + name| < PATH_MAX ==> path' == Showing(base + name) && path'.text == base + name)
  {
    AddShows(base, name);
    if |base| < PATH_MAX {
      assert base <= Shown(base + name);
    } else {
      assert (base + name)[..PATH_MAX - 1] == base[..PATH_MAX - 1];
    }
  }

  lemma PrintedIsShown(path: string, name: string, n: nat)
    requires n <= |name| && (n == |name| || |path| + n == PATH_MAX - 1) && |path| + n < PATH_MAX
    ensures path + name[..n] == Shown(path + name)
  {
  }

  /** The buffer itself. */
  class PathBuffer {
    const data: array<char>
    var length: nat
    ghost var text: string

    ghost predicate Valid()
      reads this, data
    {
      && data.Length == PATH_MAX + 1 && |text| < PATH_MAX && NoNul(text)
      && data[..|text|] == text && data[|text|] == NUL
      && (length <= |text| || length == PATH_MAX)
    }

    ghost function View(): Buffer
      reads this
    {
      Buffer(text, length)
    }

    constructor ()
      ensures Valid() && View() == Showing("") && fresh(data)
    {
      data := new char[PATH_MAX + 1](i => NUL);
      length, text := 0, "";
    }

    /** Formats `name` behind the current length, as snprintf does with the room left. */
    method Print(name: string)
      requires Valid() && NoNul(name) && length < PATH_MAX
      modifies this`text, data
      ensures data.Length == PATH_MAX + 1 && text == Shown(old(text)[..length] + name)
      ensures data[..|text|] == text && data[|text|] == NUL
    {
      var room := PATH_MAX - length;
      var n := if |name| < room then |name| else room - 1;
      ghost var shown := text[..length] + name[..n];
      PrintedIsShown(text[..length], name, n);
      forall k | length <= k < length + n {
        data[k] := name[k - length];
      }
      data[length + n] := NUL;
      assert forall k :: 0 <= k < |shown| ==> data[k] == shown[k];
      text := shown;
    }

    method Add(name: string) returns (ok: bool)
      requires Valid() && NoNul(name)
      modifies this, data
      ensures Valid() && (View(), ok) == AddTo(old(View()), name)
    {
      if length < PATH_MAX {
        Print(name);
      }
      data[PATH_MAX] := NUL;
      if |name| <= PATH_MAX - length {
        length := length + |name|;
        return true;
      }
      return false;
    }

    /** What the buffer shows, up to the terminator. */
    method AsString() returns (s: string)
      requires Valid()
      ensures s == text
    {
      var n := 0;
      while data[n] != NUL
        invariant n <= |text|
        decreases |text| - n
      {
        assert data[..|text|][n] == text[n];
        n := n + 1;
      }
      s := data[..n];
    }

    method Reset(newLength: nat)
      requires Valid() && (newLength <= |text| || newLength == PATH_MAX)
      modifies this, data
      ensures Valid() && View() == ResetTo(old(View()), newLength)
    {
      length := newLength;
      data[length] := NUL;
      if length < PATH_MAX {
        text := text[..length];
      }
    }
  }
}
