/**
 * Choosing the outer boundary among the traced faces: the face list is
 * stable-sorted by length and its last entry is taken as the outer face.
 * A face is a sequence of half-edge ids.
 */
module FaceOrder {
  import opened Basics

  ghost predicate SortedByLength(s: seq<seq<nat>>) {
    forall i, j | 0 <= i < j < |s| :: |s[i]| <= |s[j]|
  }

  /** Puts `f` in front of the first face that is at least as long. */
  function InsertByLength(f: seq<nat>, s: seq<seq<nat>>): (r: seq<seq<nat>>)
    ensures multiset(r) == multiset(s) + multiset{f}
  {
    if s == [] || |f| <= |s[0]| then
      [f] + s
    else
      assert s == [s[0]] + s[1..];
      [s[0]] + InsertByLength(f, s[1..])
  }

  /** Python's stable `list.sort(key=len)`. */
  function SortByLength(s: seq<seq<nat>>): (r: seq<seq<nat>>)
    ensures multiset(r) == multiset(s)
  {
    if s == [] then
      []
    else
      assert s == [s[0]] + s[1..];
      InsertByLength(s[0], SortByLength(s[1..]))
  }

  /** The faces of `s` of length n, in their order in `s`. */
  function OfLength(s: seq<seq<nat>>, n: nat): seq<seq<nat>> {
    if s == [] then []
    else (if |s[0]| == n then [s[0]] else []) + OfLength(s[1..], n)
  }

  /** The head of an insertion is the inserted face or the old head. */
  lemma InsertHead(f: seq<nat>, s: seq<seq<nat>>)
    ensures InsertByLength(f, s)[0] == f || (s != [] && InsertByLength(f, s)[0] == s[0])
  {
  }

  lemma {:induction false} InsertKeepsSorted(f: seq<nat>, s: seq<seq<nat>>)
    requires SortedByLength(s)
    ensures SortedByLength(InsertByLength(f, s))
  {
    if s != [] && |f| > |s[0]| {
      var r := InsertByLength(f, s[1..]);
      InsertKeepsSorted(f, s[1..]);
      InsertHead(f, s[1..]);
      assert |s[0]| <= |r[0]|;
      assert InsertByLength(f, s) == [s[0]] + r;
    }
  }

  lemma {:induction false} SortByLengthSorts(s: seq<seq<nat>>)
    ensures SortedByLength(SortByLength(s))
  {
    if s != [] {
      SortByLengthSorts(s[1..]);
      InsertKeepsSorted(s[0], SortByLength(s[1..]));
    }
  }

  /** Inserting a face puts it before every face of its length already present. */
  lemma {:induction false} InsertIsStable(f: seq<nat>, s: seq<seq<nat>>, n: nat)
    ensures OfLength(InsertByLength(f, s), n) == (if |f| == n then [f] else []) + OfLength(s, n)
  {
    if s == [] || |f| <= |s[0]| {
      assert ([f] + s)[1..] == s;
    } else {
      var r := InsertByLength(f, s[1..]);
      InsertIsStable(f, s[1..], n);
      assert ([s[0]] + r)[1..] == r;
    }
  }

  /** The sort is stable: faces of equal length keep their relative order. */
  lemma {:induction false} SortIsStable(s: seq<seq<nat>>, n: nat)
    ensures OfLength(SortByLength(s), n) == OfLength(s, n)
  {
    if s != [] {
      SortIsStable(s[1..], n);
      InsertIsStable(s[0], SortByLength(s[1..]), n);
    }
  }

  /** If the last face has length n, it is also the last face of length n. */
  lemma {:induction false} LastOfLength(s: seq<seq<nat>>, n: nat)
    requires |s| > 0 && |Last(s)| == n
    ensures |OfLength(s, n)| > 0 && Last(OfLength(s, n)) == Last(s)
  {
    if |s| > 1 {
      LastOfLength(s[1..], n);
    }
  }

  lemma {:induction false} NoneOfLength(s: seq<seq<nat>>, n: nat)
    requires OfLength(s, n) == []
    ensures forall j | 0 <= j < |s| :: |s[j]| != n
  {
    if s != [] {
      NoneOfLength(s[1..], n);
      assert forall j | 1 <= j < |s| :: s[j] == s[1..][j - 1];
    }
  }

  /** The last face of length n sits at a position after which no face has length n. */
  lemma {:induction false} LastOfLengthPosition(s: seq<seq<nat>>, n: nat)
    requires |OfLength(s, n)| > 0
    ensures exists i | 0 <= i < |s| ::
      s[i] == Last(OfLength(s, n)) && |s[i]| == n && forall j | i < j < |s| :: |s[j]| != n
  {
    var rest := OfLength(s[1..], n);
    if rest == [] {
      NoneOfLength(s[1..], n);
      assert forall j | 1 <= j < |s| :: s[j] == s[1..][j - 1];
      assert OfLength(s, n) == [s[0]];
    } else {
      LastOfLengthPosition(s[1..], n);
      var i :| 0 <= i < |s[1..]| && s[1..][i] == Last(rest) && |s[1..][i]| == n
               && forall j | i < j < |s[1..]| :: |s[1..][j]| != n;
      assert s[i + 1] == Last(OfLength(s, n));
      forall j | i + 1 < j < |s| ensures |s[j]| != n {
        assert s[j] == s[1..][j - 1];
      }
    }
  }

  /**
   * The outer face, the last entry after sorting, is at least as long as every
   * face, and among the longest faces it is the one found last.
   */
  lemma OuterFaceIsLongest(s: seq<seq<nat>>)
    requires |s| > 0
    ensures |SortByLength(s)| == |s|
    ensures forall j | 0 <= j < |s| :: |s[j]| <= |Last(SortByLength(s))|
    ensures exists i | 0 <= i < |s| ::
      s[i] == Last(SortByLength(s)) && forall j | i < j < |s| :: |s[j]| < |s[i]|
  {
    var sorted := SortByLength(s);
    assert |sorted| == |multiset(sorted)| == |multiset(s)| == |s|;
    var outer := Last(sorted);
    SortByLengthSorts(s);
    forall j | 0 <= j < |s| ensures |s[j]| <= |outer| {
      assert s[j] in multiset(sorted);
      var m :| 0 <= m < |sorted| && sorted[m] == s[j];
    }
    LastOfLength(sorted, |outer|);
    SortIsStable(s, |outer|);
    LastOfLengthPosition(s, |outer|);
  }
}
