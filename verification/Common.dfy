/** What several modules share. */
module Common {

  datatype Option<T> = None | Some(value: T)

  ghost predicate Distinct<T>(s: seq<T>) {
    forall i, j :: 0 <= i < j < |s| ==> s[i] != s[j]
  }

  /** The members of a sequence. */
  function Elements<T(==)>(s: seq<T>): set<T> {
    set x | x in s
  }

  newtype Byte = x: int | 0 <= x < 256

  // ---- C strings: sequences without the terminator.

  /** The character of a C string at index i; the terminator is at its length. */
  function CharAt<T>(s: seq<T>, i: nat, terminator: T): T
    requires i <= |s|
  {
    if i == |s| then terminator else s[i]
  }

  const NUL := 0 as char

  ghost predicate NoNul(s: string) {
    forall i :: 0 <= i < |s| ==> s[i] != NUL
  }

  type Name = s: string | NoNul(s)

  // ---- Directory entries.

  /** The names of a directory itself and of the one around it. */
  predicate IsDots(name: string) {
    name == "." || name == ".."
  }
}
