/** Zero-terminated strings in character arrays. */
module CStrings {

  /** The whole array is one string with its terminator. */
  ghost predicate CString(a: array<char>)
    reads a
  {
    a.Length > 0 && a[a.Length - 1] == '\0' && forall k :: 0 <= k < a.Length - 1 ==> a[k] != '\0'
  }

  ghost function Text(a: array<char>): string
    requires a.Length > 0
    reads a
  {
    a[..a.Length - 1]
  }

  /** A pointer to offset `at` of `a` reads as the string `v`. */
  ghost predicate HoldsString(a: array<char>, at: nat, v: string)
    reads a
  {
    && at + |v| < a.Length && a[at + |v|] == '\0'
    && forall k :: 0 <= k < |v| ==> v[k] != '\0' && a[at + k] == v[k]
  }

  /** What strcpy and strcat read through a pointer. */
  method ReadString(a: array<char>, at: nat, ghost v: string) returns (t: string)
    requires HoldsString(a, at, v)
    ensures t == v
  {
    t := "";
    while a[at + |t|] != '\0'
      invariant |t| <= |v| && t == v[..|t|]
      invariant |t| == |v| || v[|t|] != '\0'
      decreases |v| - |t|
    {
      t := t + [a[at + |t|]];
    }
  }
}
