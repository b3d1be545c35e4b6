/** Operations on the dispatcher's handler lists: the front-to-back scan for a
    handler that Register, Has and Remove each perform, and the slice splice
    `append(s[:k], s[k+1:]...)` that drops one element. */
module Sequences {

  import opened Options

  /** No two positions of `s` hold equal elements. */
  ghost predicate NoDuplicates<T>(s: seq<T>) {
    forall i, j | 0 <= i < j < |s| :: s[i] != s[j]
  }

  /** The position of the first element of `s` equal to `x`, found by scanning
      from the front and stopping at the first match; `None` when there is none. */
  function FirstIndex<T(==)>(s: seq<T>, x: T): (r: Option<nat>)
    ensures r.None? <==> x !in s
    ensures r.Some? ==> r.value < |s| && s[r.value] == x
    ensures r.Some? ==> forall j | 0 <= j < r.value :: s[j] != x
  {
    if |s| == 0 then None
    else if s[0] == x then Some(0)
    else
      match FirstIndex(s[1..], x)
      case None => None
      case Some(k) => Some(k + 1)
  }

  /** `s` without its element at position `k`; the other elements keep their order. */
  function RemoveAt<T>(s: seq<T>, k: nat): (r: seq<T>)
    requires k < |s|
    ensures |r| == |s| - 1
    ensures forall i | 0 <= i < k :: r[i] == s[i]
    ensures forall i | k <= i < |r| :: r[i] == s[i + 1]
    ensures multiset(r) == multiset(s) - multiset{s[k]}
  {
    assert s == s[..k] + [s[k]] + s[k + 1..];
    s[..k] + s[k + 1..]
  }

  /** Without duplicates, an element occurs once if it occurs at all. */
  lemma {:induction false} NoDuplicatesCount<T>(s: seq<T>, x: T)
    requires NoDuplicates(s)
    ensures multiset(s)[x] == if x in s then 1 else 0
  {
    if |s| > 0 {
      assert s == [s[0]] + s[1..];
      assert NoDuplicates(s[1..]) by {
        forall i, j | 0 <= i < j < |s[1..]|
          ensures s[1..][i] != s[1..][j]
        {
          assert s[1..][i] == s[i + 1] && s[1..][j] == s[j + 1];
        }
      }
      NoDuplicatesCount(s[1..], x);
      if s[0] == x {
        assert x !in s[1..] by {
          forall j | 0 <= j < |s[1..]|
            ensures s[1..][j] != x
          {
            assert s[1..][j] == s[j + 1];
          }
        }
      }
    }
  }

  /** Dropping one element keeps a duplicate-free list duplicate-free, and the
      dropped element is then gone from it. */
  lemma RemoveAtNoDuplicates<T>(s: seq<T>, k: nat)
    requires k < |s|
    requires NoDuplicates(s)
    ensures NoDuplicates(RemoveAt(s, k))
    ensures s[k] !in RemoveAt(s, k)
  {
  }

  /** Appending an element not yet present keeps a list duplicate-free. */
  lemma AppendNoDuplicates<T>(s: seq<T>, x: T)
    requires NoDuplicates(s)
    requires x !in s
    ensures NoDuplicates(s + [x])
  {
  }

  /** The search finds an appended element at the end when it was not there before. */
  lemma FirstIndexAppend<T>(s: seq<T>, x: T)
    requires x !in s
    ensures FirstIndex(s + [x], x) == Some(|s|)
  {
  }

  /** Dropping the last element undoes an append. */
  lemma RemoveAtAppend<T>(s: seq<T>, x: T)
    ensures RemoveAt(s + [x], |s|) == s
  {
  }
}
