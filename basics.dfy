/** Vocabulary shared by the half-edge construction and the face tracer. */
module Basics {

  datatype Option<T> = None | Some(value: T)

  /** The two ways building the successor of a half-edge fails. */
  datatype Error =
    | EmptyFan    // the destination has no outgoing half-edge: unpacking the empty sort fails
    | TiedAngles  // two candidates share a normalised angle: the sort falls back to comparing half-edges, which have no order

  datatype Result<T> = Ok(value: T) | Err(error: Error)

  function Last<T>(s: seq<T>): T
    requires |s| > 0
  {
    s[|s| - 1]
  }

  /** No element occurs twice. */
  predicate Distinct<T(==)>(s: seq<T>) {
    forall i, j | 0 <= i < j < |s| :: s[i] != s[j]
  }

  /** Position of the first occurrence of `x` (Python's `list.index`). */
  function IndexOf<T(==)>(s: seq<T>, x: T): (i: nat)
    requires x in s
    ensures i < |s| && s[i] == x
    ensures x !in s[..i]
  {
    if s[0] == x then 0 else 1 + IndexOf(s[1..], x)
  }

  /** Pigeonhole: a sequence of distinct ids below `m` has at most `m` entries. */
  lemma {:induction false} DistinctLength(s: seq<nat>, m: nat)
    requires Distinct(s)
    requires forall k | 0 <= k < |s| :: s[k] < m
    ensures |s| <= m
    decreases m
  {
    assert s != [] ==> s[0] < m;
    if s == [] {
    } else if m - 1 in s {
      var i := IndexOf(s, m - 1);
      var t := s[..i] + s[i + 1..];
      assert forall k | 0 <= k < |t| :: t[k] == if k < i then s[k] else s[k + 1];
      forall k | 0 <= k < |t| ensures t[k] < m - 1 {
        var src := if k < i then k else k + 1;
        assert t[k] == s[src] && src != i;
      }
      DistinctLength(t, m - 1);
    } else {
      DistinctLength(s, m - 1);
    }
  }
}
