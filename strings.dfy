/** The two operations of Go's `strings` package that the address codec
    uses, restated over `string` (a sequence of characters). */
module Strings {

  predicate HasPrefix(s: string, prefix: string)
  {
    |prefix| <= |s| && s[..|prefix|] == prefix
  }

  /** `strings.TrimPrefix`: `s` without one leading occurrence of `prefix`,
      or `s` itself when it does not start with `prefix`. */
  function TrimPrefix(s: string, prefix: string): (r: string)
    ensures HasPrefix(s, prefix) ==> prefix + r == s
    ensures !HasPrefix(s, prefix) ==> r == s
  {
    if HasPrefix(s, prefix) then
      assert s == s[..|prefix|] + s[|prefix|..];
      s[|prefix|..]
    else
      s
  }

  /** `strings.TrimLeft`: `s` without its longest prefix made of characters
      of `cutset`. */
  function TrimLeft(s: string, cutset: string): (r: string)
    ensures |r| <= |s| && r == s[|s| - |r|..]
    ensures forall i :: 0 <= i < |s| - |r| ==> s[i] in cutset
    ensures r != [] ==> r[0] !in cutset
  {
    if s != [] && s[0] in cutset then TrimLeft(s[1..], cutset) else s
  }

  /** The three properties of TrimLeft determine its result. */
  lemma {:induction false} TrimLeftUnique(s: string, cutset: string, k: nat)
    requires k <= |s|
    requires forall i :: 0 <= i < k ==> s[i] in cutset
    requires k == |s| || s[k] !in cutset
    ensures TrimLeft(s, cutset) == s[k..]
  {
    if k > 0 {
      TrimLeftUnique(s[1..], cutset, k - 1);
      assert s[1..][k - 1..] == s[k..];
    }
  }

  /** Trimming a prefix that is there leaves exactly what follows it. */
  lemma {:induction false} TrimPrefixOfPrefixed(prefix: string, t: string)
    ensures TrimPrefix(prefix + t, prefix) == t
  {
    assert (prefix + t)[..|prefix|] == prefix;
    assert (prefix + t)[|prefix|..] == t;
  }
}
