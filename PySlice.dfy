/** Python's slice expressions `s[:k]` and `s[k:]` on lists, including the
    negative and out-of-range indices that Python accepts silently. */
module PySlice {

  /** The position Python uses for a slice bound `k` on a list of length `n`:
      a negative `k` counts from the end, and the result is clamped to `0..n`. */
  function Bound(n: nat, k: int): (i: nat)
    ensures i <= n
    ensures 0 <= k <= n ==> i == k
    ensures k > n ==> i == n
    ensures k < 0 ==> i + (if -k <= n then -k else n) == n
  {
    if k < 0 then (if n + k < 0 then 0 else n + k)
    else if k > n then n
    else k
  }

  /** `s[:k]` in Python. */
  function Take<T>(s: seq<T>, k: int): (r: seq<T>)
    ensures |r| <= |s| && r == s[..|r|]
    ensures 0 <= k <= |s| ==> |r| == k
    ensures k < 0 && -k <= |s| ==> |r| == |s| + k
    ensures k < -|s| ==> r == []
    ensures k > |s| ==> r == s
  {
    s[..Bound(|s|, k)]
  }

  /** `s[k:]` in Python. */
  function Drop<T>(s: seq<T>, k: int): (r: seq<T>)
    ensures |r| <= |s| && r == s[|s| - |r|..]
    ensures 0 <= k <= |s| ==> |r| == |s| - k
    ensures k < 0 && -k <= |s| ==> |r| == -k
    ensures k < -|s| ==> r == s
    ensures k > |s| ==> r == []
  {
    s[Bound(|s|, k)..]
  }

  /** `s[:k] + s[k:] == s` for every integer `k`. */
  lemma TakeDrop<T>(s: seq<T>, k: int)
    ensures Take(s, k) + Drop(s, k) == s
  {
  }

  /** `s[:-1]` drops the last element of a non-empty list and leaves an
      empty list empty. */
  lemma TakeMinusOne<T>(s: seq<T>)
    ensures s != [] ==> Take(s, -1) == s[..|s| - 1]
    ensures s == [] ==> Take(s, -1) == []
  {
  }
}
