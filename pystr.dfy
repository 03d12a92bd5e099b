/** The Python string operations the loaders rely on: slicing with negative and
    out-of-range bounds, `find`, `startswith`, `endswith` and `split(sep)[0]`. */
module PyStr {

  /** Normalises one slice bound against a length `n` as Python does: a negative
      bound counts from the end, and the result is clamped into [0, n]. */
  function Clamp(i: int, n: nat): (r: nat)
    ensures r <= n
  {
    if i < 0 then (if i + n < 0 then 0 else i + n)
    else if i > n then n
    else i
  }

  /** `s[i:j]`; an empty result when the clamped start is not before the clamped stop. */
  function Slice(s: string, i: int, j: int): (r: string)
    ensures |r| <= |s|
  {
    var a, b := Clamp(i, |s|), Clamp(j, |s|);
    if a < b then s[a..b] else []
  }

  /** `s[:j]` with `0 <= j <= |s|` is the plain prefix. */
  lemma SlicePrefix(s: string, j: int)
    requires 0 <= j <= |s|
    ensures Slice(s, 0, j) == s[..j]
  {
  }

  /** `s[:-1]` drops the last character, and is empty on the empty string. */
  lemma SliceDropLast(s: string)
    ensures Slice(s, 0, -1) == if s == [] then [] else s[..|s| - 1]
  {
  }

  /** `s[-n:]` for n > 0 keeps the last n characters, or all of `s` when it is shorter. */
  lemma SliceLast(s: string, n: int)
    requires n > 0
    ensures Slice(s, -n, |s|) == if |s| <= n then s else s[|s| - n..]
  {
  }

  /** True when `sub` occurs in `s` at index `j`. */
  predicate OccursAt(s: string, sub: string, j: int)
  {
    0 <= j && j + |sub| <= |s| && s[j..j + |sub|] == sub
  }

  /** `s.find(sub, i)`: the lowest index at or after `i` where `sub` occurs, or -1. */
  function FindFrom(s: string, sub: string, i: nat): (r: int)
    decreases |s| - i
    ensures r == -1 || (i <= r && OccursAt(s, sub, r))
    ensures forall j :: i <= j && (r == -1 || j < r) ==> !OccursAt(s, sub, j)
  {
    if i + |sub| > |s| then -1
    else if s[i..i + |sub|] == sub then i
    else FindFrom(s, sub, i + 1)
  }

  /** `s.find(sub)`: the first occurrence of `sub` in `s`, or -1 when there is none.
      The empty needle is found at index 0. */
  function Find(s: string, sub: string): (r: int)
    ensures r == -1 || OccursAt(s, sub, r)
    ensures forall j :: 0 <= j && (r == -1 || j < r) ==> !OccursAt(s, sub, j)
    ensures sub == [] ==> r == 0
  {
    FindFrom(s, sub, 0)
  }

  /** `s.startswith(prefix)`; the empty prefix matches every string. */
  predicate StartsWith(s: string, prefix: string)
  {
    |prefix| <= |s| && s[..|prefix|] == prefix
  }

  /** `s.endswith(suffix)`; the empty suffix matches every string. */
  predicate EndsWith(s: string, suffix: string)
  {
    |suffix| <= |s| && s[|s| - |suffix|..] == suffix
  }

  /** `s.split(sep)[0]` for a one-character separator: everything before the
      first `sep`, or all of `s` when it holds none. */
  function SplitHead(s: string, sep: char): (r: string)
    ensures sep !in r
    ensures r <= s
    ensures r == s || (|r| < |s| && s[|r|] == sep)
  {
    var i := Find(s, [sep]);
    if i == -1 then
      assert forall k :: 0 <= k < |s| ==> s[k] != sep by {
        forall k | 0 <= k < |s| ensures s[k] != sep {
          assert !OccursAt(s, [sep], k);
        }
      }
      s
    else
      assert forall k :: 0 <= k < i ==> s[k] != sep by {
        forall k | 0 <= k < i ensures s[k] != sep {
          assert !OccursAt(s, [sep], k);
        }
      }
      assert s[i..i + 1] == [sep];
      s[..i]
  }
  /** The head is everything before the first separator. */
  lemma SplitHeadAt(s: string, sep: char, i: nat)
    requires i < |s| && s[i] == sep
    requires forall j :: 0 <= j < i ==> s[j] != sep
    ensures SplitHead(s, sep) == s[..i]
  {
  }

}
