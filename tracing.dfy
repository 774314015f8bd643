/**
 * Face tracing over the half-edge arena: from every half-edge not yet
 * traversed, follow successors until the walk meets a traversed half-edge
 * (the attempt is dropped) or repeats a half-edge of the walk (the cycle so
 * reached is recorded as a face and its half-edges are marked traversed).
 */
module Tracing {
  import opened Basics
  import opened Angles
  import opened HalfEdges
  import FaceOrder

  // ---- walks and faces over the successor function ----------------------

  /** Every id in w is a half-edge and each one's successor is the next in w. */
  ghost predicate Chain(next: seq<nat>, w: seq<nat>) {
    && (forall k | 0 <= k < |w| :: w[k] < |next|)
    && (forall k | 0 <= k < |w| - 1 :: next[w[k]] == w[k + 1])
  }

  /** No half-edge of w is marked traversed in `trav`. */
  ghost predicate Untouched(trav: seq<bool>, w: seq<nat>) {
    forall k | 0 <= k < |w| :: w[k] < |trav| && !trav[w[k]]
  }

  /** A walk in progress: a non-empty chain of distinct, untraversed half-edges. */
  ghost predicate OpenWalk(next: seq<nat>, trav: seq<bool>, w: seq<nat>) {
    |trav| == |next| && |w| > 0 && Chain(next, w) && Distinct(w) && Untouched(trav, w)
  }

  /** A face: a closed chain of distinct half-edges, the last one's successor being the first. */
  ghost predicate Face(next: seq<nat>, f: seq<nat>) {
    |f| > 0 && Chain(next, f) && Distinct(f) && next[Last(f)] == f[0]
  }

  ghost function EdgesOf(faces: seq<seq<nat>>): set<nat> {
    if faces == [] then {} else EdgesOf(faces[..|faces| - 1]) + set x | x in Last(faces)
  }

  ghost predicate PairwiseDisjoint(faces: seq<seq<nat>>) {
    forall i, j, a, b | 0 <= i < j < |faces| && 0 <= a < |faces[i]| && 0 <= b < |faces[j]| ::
      faces[i][a] != faces[j][b]
  }

  /**
   * What tracing keeps, relative to the flags `t0` it started from: the faces
   * it `added` are closed, pairwise disjoint, and made only of half-edges that
   * were untraversed at the start; and a half-edge is traversed exactly when it
   * was at the start or it lies on one of those faces.
   */
  ghost predicate Sound(next: seq<nat>, t0: seq<bool>, trav: seq<bool>, added: seq<seq<nat>>) {
    && |t0| == |trav| == |next|
    && (forall i | 0 <= i < |added| :: Face(next, added[i]) && Untouched(t0, added[i]))
    && PairwiseDisjoint(added)
    && (forall e | 0 <= e < |trav| :: trav[e] == (t0[e] || e in EdgesOf(added)))
  }

  ghost function Marked(trav: seq<bool>, f: seq<nat>): seq<bool> {
    seq(|trav|, e requires 0 <= e < |trav| => trav[e] || e in f)
  }

  /** Flags only ever go from untraversed to traversed. */
  ghost predicate Grows(before: seq<bool>, after: seq<bool>) {
    |before| == |after| && forall e | 0 <= e < |before| :: before[e] ==> after[e]
  }

  /** Every half-edge is traversed and lies on one of `faces`. */
  ghost predicate AllOnFaces(trav: seq<bool>, faces: seq<seq<nat>>) {
    forall e | 0 <= e < |trav| :: trav[e] && e in EdgesOf(faces)
  }

  ghost predicate NoneTraversed(trav: seq<bool>) {
    forall e | 0 <= e < |trav| :: !trav[e]
  }

  /** No two half-edges share a successor. */
  ghost predicate Injective(next: seq<nat>) {
    forall a, b | 0 <= a < |next| && 0 <= b < |next| && a != b :: next[a] != next[b]
  }

  /** A half-edge whose successor is traversed is traversed itself. */
  ghost predicate PredClosed(next: seq<nat>, trav: seq<bool>) {
    forall x | 0 <= x < |next| && x < |trav| && next[x] < |trav| :: trav[next[x]] ==> trav[x]
  }

  ghost predicate InRange(next: seq<nat>) {
    forall x | 0 <= x < |next| :: next[x] < |next|
  }

  /** The half-edge reached from e after n successor steps. */
  ghost function Iterate(next: seq<nat>, e: nat, n: nat): (r: nat)
    requires InRange(next) && e < |next|
    ensures r < |next|
    decreases n
  {
    if n == 0 then e else Iterate(next, next[e], n - 1)
  }

  // ---- lemmas ---------------------------------------------------------------

  lemma EdgesOfMember(faces: seq<seq<nat>>, i: nat, a: nat)
    requires i < |faces| && a < |faces[i]|
    ensures faces[i][a] in EdgesOf(faces)
    decreases |faces|
  {
    if i < |faces| - 1 {
      var init := faces[..|faces| - 1];
      assert faces[i] == init[i];
      EdgesOfMember(init, i, a);
    }
  }

  /** A non-empty prefix of an open walk is an open walk. */
  lemma OpenPrefix(next: seq<nat>, trav: seq<bool>, w: seq<nat>, k: nat)
    requires OpenWalk(next, trav, w) && 0 < k <= |w|
    ensures OpenWalk(next, trav, w[..k])
  {
    assert forall j | 0 <= j < k :: w[..k][j] == w[j];
  }

  /** An untraversed successor not yet on the walk extends it. */
  lemma ExtendWalk(next: seq<nat>, trav: seq<bool>, w: seq<nat>)
    requires OpenWalk(next, trav, w) && InRange(next)
    requires next[Last(w)] !in w && !trav[next[Last(w)]]
    ensures OpenWalk(next, trav, w + [next[Last(w)]])
  {
    var w' := w + [next[Last(w)]];
    assert forall k | 0 <= k < |w| :: w'[k] == w[k];
  }

  /**
   * The walk `w` followed on along successors for as long as the next
   * half-edge is neither on the walk nor traversed.
   */
  ghost function Walk(next: seq<nat>, trav: seq<bool>, w: seq<nat>): (r: seq<nat>)
    requires InRange(next) && OpenWalk(next, trav, w)
    ensures |w| <= |r| && r[..|w|] == w && OpenWalk(next, trav, r)
    decreases |trav| - |w|
  {
    var c := next[Last(w)];
    DistinctLength(w, |trav|);
    if c in w || trav[c] then
      w
    else
      ExtendWalk(next, trav, w);
      DistinctLength(w + [c], |trav|);
      var r := Walk(next, trav, w + [c]);
      assert r[..|w|] == (w + [c])[..|w|];
      r
  }

  /** The walk stops only at a half-edge that is on it or traversed. */
  lemma {:induction false} WalkStops(next: seq<nat>, trav: seq<bool>, w: seq<nat>)
    requires InRange(next) && OpenWalk(next, trav, w)
    ensures var r := Walk(next, trav, w); next[Last(r)] in r || trav[next[Last(r)]]
    decreases |trav| - |w|
  {
    var c := next[Last(w)];
    if !(c in w || trav[c]) {
      ExtendWalk(next, trav, w);
      DistinctLength(w + [c], |trav|);
      WalkStops(next, trav, w + [c]);
    }
  }

  /**
   * The part of a walk from the half-edge its last successor returns to is a
   * face of untraversed half-edges.
   */
  lemma SuffixIsFace(next: seq<nat>, trav: seq<bool>, w: seq<nat>, i: nat)
    requires OpenWalk(next, trav, w) && i < |w| && next[Last(w)] == w[i]
    ensures Face(next, w[i..]) && Untouched(trav, w[i..])
  {
    var f := w[i..];
    assert forall k | 0 <= k < |f| :: f[k] == w[i + k];
  }

  /** A face made of untraversed half-edges shares none with the faces already recorded. */
  lemma DisjointAppend(t0: seq<bool>, trav: seq<bool>, added: seq<seq<nat>>, f: seq<nat>)
    requires |trav| == |t0| && PairwiseDisjoint(added) && Untouched(trav, f)
    requires forall e | 0 <= e < |trav| :: trav[e] == (t0[e] || e in EdgesOf(added))
    ensures PairwiseDisjoint(added + [f])
  {
    var added' := added + [f];
    forall i, j, a, b | 0 <= i < j < |added'| && 0 <= a < |added'[i]| && 0 <= b < |added'[j]|
      ensures added'[i][a] != added'[j][b]
    {
      if j == |added| {
        EdgesOfMember(added, i, a);
      }
    }
  }

  /** Recording a fresh face and marking its half-edges keeps tracing sound. */
  lemma AddFace(next: seq<nat>, t0: seq<bool>, trav: seq<bool>, added: seq<seq<nat>>, f: seq<nat>)
    requires Sound(next, t0, trav, added)
    requires Face(next, f) && Untouched(trav, f)
    ensures Sound(next, t0, Marked(trav, f), added + [f])
  {
    var added' := added + [f];
    var marked := Marked(trav, f);
    assert added'[..|added'| - 1] == added;
    forall e | 0 <= e < |marked| ensures marked[e] == (t0[e] || e in EdgesOf(added')) {
      assert e in EdgesOf(added') <==> e in EdgesOf(added) || e in f;
    }
    forall i | 0 <= i < |added'| ensures Face(next, added'[i]) && Untouched(t0, added'[i]) {
      if i < |added| {
        assert added'[i] == added[i];
      }
    }
    DisjointAppend(t0, trav, added, f);
  }

  /**
   * When no two half-edges share a successor and the traversed half-edges are
   * closed under predecessors, a walk started at an untraversed half-edge can
   * only stop by returning to its start.
   */
  lemma ClosesAtStart(next: seq<nat>, trav: seq<bool>, w: seq<nat>)
    requires InRange(next) && Injective(next) && PredClosed(next, trav) && OpenWalk(next, trav, w)
    requires next[Last(w)] in w || trav[next[Last(w)]]
    ensures next[Last(w)] == w[0]
  {
    var stop := next[Last(w)];
    assert !trav[Last(w)];
    assert !trav[stop];
    forall j | 0 < j < |w| ensures w[j] != stop {
      assert next[w[j - 1]] == w[j];
    }
  }

  /** Marking the cycle part of a walk leaves the lead-in before it untraversed. */
  lemma PrefixStaysUntraversed(trav: seq<bool>, w: seq<nat>, i: nat)
    requires Untouched(trav, w) && Distinct(w) && i <= |w|
    ensures forall k | 0 <= k < i :: !Marked(trav, w[i..])[w[k]]
  {
    forall k | 0 <= k < i ensures w[k] !in w[i..] {
      forall m | 0 <= m < |w| - i ensures w[i..][m] != w[k] {
        assert w[i..][m] == w[i + m];
      }
    }
  }

  /** Marking a face keeps the traversed half-edges closed under predecessors. */
  lemma MarkKeepsPredClosed(next: seq<nat>, trav: seq<bool>, f: seq<nat>)
    requires Injective(next) && PredClosed(next, trav) && Face(next, f) && |trav| == |next|
    ensures PredClosed(next, Marked(trav, f))
  {
    var m := Marked(trav, f);
    forall x | 0 <= x < |next| && x < |m| && next[x] < |m| && m[next[x]] ensures m[x] {
      if !trav[next[x]] {
        var k := IndexOf(f, next[x]);
        var pred := if k == 0 then Last(f) else f[k - 1];
        assert next[pred] == next[x];
      }
    }
  }

  lemma {:induction false} IterateAdd(next: seq<nat>, e: nat, a: nat, b: nat)
    requires InRange(next) && e < |next|
    ensures Iterate(next, e, a + b) == Iterate(next, Iterate(next, e, a), b)
    decreases a
  {
    if a > 0 {
      IterateAdd(next, next[e], a - 1, b);
    }
  }

  lemma {:induction false} FaceAhead(next: seq<nat>, f: seq<nat>, j: nat, n: nat)
    requires InRange(next) && Face(next, f) && j + n < |f|
    ensures Iterate(next, f[j], n) == f[j + n]
    decreases n
  {
    if n > 0 {
      FaceAhead(next, f, j + 1, n - 1);
    }
  }

  /**
   * A face is an orbit of the successor function: from any of its half-edges,
   * |f| steps lead back to it and no shorter positive number of steps does.
   */
  lemma FaceIsOrbit(next: seq<nat>, f: seq<nat>, j: nat)
    requires InRange(next) && Face(next, f) && j < |f|
    ensures Iterate(next, f[j], |f|) == f[j]
    ensures forall n | 0 < n < |f| :: Iterate(next, f[j], n) != f[j]
  {
    var len := |f|;
    var toLast := len - 1 - j;
    FaceAhead(next, f, j, toLast);
    IterateAdd(next, f[j], toLast, 1 + j);
    IterateAdd(next, Last(f), 1, j);
    FaceAhead(next, f, 0, j);
    forall n | 0 < n < len ensures Iterate(next, f[j], n) != f[j] {
      if n <= toLast {
        FaceAhead(next, f, j, n);
      } else {
        IterateAdd(next, f[j], toLast, n - toLast);
        IterateAdd(next, Last(f), 1, n - toLast - 1);
        FaceAhead(next, f, 0, n - toLast - 1);
      }
    }
  }

  // ---- the tracing loop as a fold over the half-edges ----------------------

  /** What the tracer holds: the traversed flags and the face list. */
  datatype Tracer = Tracer(trav: seq<bool>, faces: seq<seq<nat>>)

  /**
   * One pass of the tracing loop at half-edge e. An untraversed e starts the
   * walk `Walk` from [e]; if the half-edge after that walk lies on it, the
   * walk from that half-edge's first occurrence on is appended as a face and
   * its half-edges are marked. In every other case nothing changes.
   */
  ghost function Visit(next: seq<nat>, s: Tracer, e: nat): (r: Tracer)
    requires InRange(next) && |s.trav| == |next| && e < |next|
    ensures |r.trav| == |next| && Grows(s.trav, r.trav)
    ensures |s.faces| <= |r.faces| <= |s.faces| + 1 && r.faces[..|s.faces|] == s.faces
  {
    if s.trav[e] then s
    else
      assert OpenWalk(next, s.trav, [e]);
      var w := Walk(next, s.trav, [e]);
      var c := next[Last(w)];
      if c in w then
        var f := w[IndexOf(w, c)..];
        Tracer(Marked(s.trav, f), s.faces + [f])
      else
        s
  }

  /** Every entry of es is a half-edge. */
  ghost predicate EdgesIn(next: seq<nat>, es: seq<nat>) {
    forall k | 0 <= k < |es| :: es[k] < |next|
  }

  /** The half-edges of the fans before p, fan by fan: the order the tracing loop visits them in. */
  ghost function FanOrder(fans: seq<seq<nat>>, p: nat): (r: seq<nat>)
    requires p <= |fans|
    ensures forall x :: x in r <==> exists q | 0 <= q < p :: x in fans[q]
  {
    if p == 0 then [] else FanOrder(fans, p - 1) + fans[p - 1]
  }

  /** The passes of the tracing loop at the half-edges es, in order, from s. */
  ghost function Run(next: seq<nat>, s: Tracer, es: seq<nat>): (r: Tracer)
    requires InRange(next) && |s.trav| == |next| && EdgesIn(next, es)
    ensures |r.trav| == |next| && Grows(s.trav, r.trav)
    ensures |s.faces| <= |r.faces| <= |s.faces| + |es| && r.faces[..|s.faces|] == s.faces
    decreases |es|
  {
    if es == [] then s
    else
      assert EdgesIn(next, es[..|es| - 1]);
      Visit(next, Run(next, s, es[..|es| - 1]), Last(es))
  }

  /** The pass at the k-th half-edge of a fan extends the run over the half-edges before it. */
  lemma RunStep(next: seq<nat>, s: Tracer, fan: seq<nat>, k: nat)
    requires InRange(next) && |s.trav| == |next| && k < |fan| && EdgesIn(next, fan)
    ensures EdgesIn(next, fan[..k]) && EdgesIn(next, fan[..k + 1])
    ensures Run(next, s, fan[..k + 1]) == Visit(next, Run(next, s, fan[..k]), fan[k])
  {
    assert fan[..k + 1][..k] == fan[..k];
  }

  lemma EdgesInConcat(next: seq<nat>, a: seq<nat>, b: seq<nat>)
    requires EdgesIn(next, a) && EdgesIn(next, b)
    ensures EdgesIn(next, a + b)
  {
    forall k | 0 <= k < |a + b| ensures (a + b)[k] < |next| {
      if k >= |a| {
        assert (a + b)[k] == b[k - |a|];
      }
    }
  }

  /** Running over es + [e] is running over es, then the pass at e. */
  lemma RunSnoc(next: seq<nat>, s: Tracer, es: seq<nat>, e: nat)
    requires InRange(next) && |s.trav| == |next| && EdgesIn(next, es) && e < |next|
    ensures EdgesIn(next, es + [e])
    ensures Run(next, s, es + [e]) == Visit(next, Run(next, s, es), e)
  {
    assert (es + [e])[..|es|] == es;
  }

  /** Running over a + b is running over a, then over b. */
  lemma {:induction false} RunConcat(next: seq<nat>, s: Tracer, a: seq<nat>, b: seq<nat>)
    requires InRange(next) && |s.trav| == |next| && EdgesIn(next, a) && EdgesIn(next, b)
    ensures EdgesIn(next, a + b)
    ensures Run(next, s, a + b) == Run(next, Run(next, s, a), b)
    decreases |b|
  {
    EdgesInConcat(next, a, b);
    if b == [] {
      assert a + b == a;
    } else {
      var init, e := b[..|b| - 1], Last(b);
      assert EdgesIn(next, init);
      assert b == init + [e] && a + b == (a + init) + [e];
      EdgesInConcat(next, a, init);
      RunConcat(next, s, a, init);
      RunSnoc(next, s, a + init, e);
      RunSnoc(next, Run(next, s, a), init, e);
    }
  }

  /** The run over the fans up to p + 1 is the run up to p followed by the passes over fan p. */
  lemma RunNextFan(next: seq<nat>, fans: seq<seq<nat>>, s: Tracer, p: nat)
    requires InRange(next) && |s.trav| == |next| && p < |fans|
    requires EdgesIn(next, FanOrder(fans, p)) && EdgesIn(next, fans[p])
    ensures EdgesIn(next, FanOrder(fans, p + 1))
    ensures Run(next, s, FanOrder(fans, p + 1)) == Run(next, Run(next, s, FanOrder(fans, p)), fans[p])
  {
    RunConcat(next, s, FanOrder(fans, p), fans[p]);
  }

  /**
   * What one pass records. A face is appended exactly when the starting
   * half-edge is untraversed and the half-edge after the walk from it lies on
   * that walk; at most one face is appended. The face is then the tail of the
   * walk from that half-edge on, a closed chain of distinct half-edges that
   * were untraversed; exactly its half-edges get marked, and the lead-in of
   * the walk before it stays untraversed. Without a new face nothing changes.
   */
  lemma VisitRecords(next: seq<nat>, s: Tracer, e: nat)
    requires InRange(next) && |s.trav| == |next| && e < |next|
    ensures var r := Visit(next, s, e);
      |r.faces| == |s.faces| + 1 <==>
        !s.trav[e] && OpenWalk(next, s.trav, [e]) &&
        var w := Walk(next, s.trav, [e]); next[Last(w)] in w
    ensures var r := Visit(next, s, e);
      && (|r.faces| == |s.faces| || |r.faces| == |s.faces| + 1)
      && Grows(s.trav, r.trav)
      && (|r.faces| == |s.faces| ==> r == s)
    ensures var r := Visit(next, s, e);
      |r.faces| > |s.faces| ==>
        && !s.trav[e] && OpenWalk(next, s.trav, [e])
        && var f := Last(r.faces);
           var w := Walk(next, s.trav, [e]);
           && r.faces == s.faces + [f]
           && r.trav == Marked(s.trav, f)
           && Face(next, f) && Untouched(s.trav, f)
           && |f| <= |w| && f == w[|w| - |f|..]
           && forall k | 0 <= k < |w| - |f| :: !r.trav[w[k]]
  {
    if !s.trav[e] {
      assert OpenWalk(next, s.trav, [e]);
      var w := Walk(next, s.trav, [e]);
      var c := next[Last(w)];
      if c in w {
        var i := IndexOf(w, c);
        SuffixIsFace(next, s.trav, w, i);
        PrefixStaysUntraversed(s.trav, w, i);
      }
    }
  }

  /**
   * When no two half-edges share a successor and traversal is closed under
   * predecessors, a pass ends with its starting half-edge traversed, and
   * traversal stays closed under predecessors.
   */
  lemma VisitCovers(next: seq<nat>, s: Tracer, e: nat)
    requires InRange(next) && |s.trav| == |next| && e < |next|
    requires Injective(next) && PredClosed(next, s.trav)
    ensures var r := Visit(next, s, e); PredClosed(next, r.trav) && r.trav[e]
  {
    if !s.trav[e] {
      assert OpenWalk(next, s.trav, [e]);
      var w := Walk(next, s.trav, [e]);
      WalkStops(next, s.trav, [e]);
      ClosesAtStart(next, s.trav, w);
      assert w[0] == e;
      assert IndexOf(w, e) == 0;
      assert w[0..] == w;
      SuffixIsFace(next, s.trav, w, 0);
      MarkKeepsPredClosed(next, s.trav, w);
    }
  }

  /** Appending a fresh face and marking it, or changing nothing, keeps tracing sound. */
  lemma AppendSound(next: seq<nat>, t0: seq<bool>, n: nat, p: Tracer, r: Tracer)
    requires n <= |p.faces| && Sound(next, t0, p.trav, p.faces[n..])
    requires r == p || (
      && |r.faces| > 0 && r.faces == p.faces + [Last(r.faces)]
      && r.trav == Marked(p.trav, Last(r.faces))
      && Face(next, Last(r.faces)) && Untouched(p.trav, Last(r.faces)))
    ensures n <= |r.faces| && r.faces[..n] == p.faces[..n]
    ensures Sound(next, t0, r.trav, r.faces[n..])
  {
    if r != p {
      var f := Last(r.faces);
      AddFace(next, t0, p.trav, p.faces[n..], f);
      assert r.faces[n..] == p.faces[n..] + [f];
      assert r.faces[..n] == p.faces[..n];
    }
  }

  /** A pass keeps the faces recorded so far and keeps tracing sound. */
  lemma VisitSound(next: seq<nat>, t0: seq<bool>, n: nat, p: Tracer, e: nat)
    requires InRange(next) && |p.trav| == |next| && e < |next|
    requires n <= |p.faces| && Sound(next, t0, p.trav, p.faces[n..])
    ensures var r := Visit(next, p, e);
      && n <= |r.faces| && r.faces[..n] == p.faces[..n]
      && Sound(next, t0, r.trav, r.faces[n..])
  {
    VisitRecords(next, p, e);
    AppendSound(next, t0, n, p, Visit(next, p, e));
  }

  /**
   * The passes only append faces, and the faces they append keep tracing
   * sound relative to the flags it started from.
   */
  lemma {:induction false} RunSound(next: seq<nat>, s: Tracer, es: seq<nat>)
    requires InRange(next) && |s.trav| == |next| && EdgesIn(next, es)
    ensures var r := Run(next, s, es);
      && |s.faces| <= |r.faces| && r.faces[..|s.faces|] == s.faces
      && Sound(next, s.trav, r.trav, r.faces[|s.faces|..])
    decreases |es|
  {
    var n := |s.faces|;
    if es == [] {
      assert s.faces[n..] == [];
    } else {
      var init := es[..|es| - 1];
      assert EdgesIn(next, init);
      RunSound(next, s, init);
      VisitSound(next, s.trav, n, Run(next, s, init), Last(es));
    }
  }

  /**
   * When no two half-edges share a successor and traversal starts closed
   * under predecessors, every half-edge a pass was made at ends traversed.
   */
  lemma {:induction false} RunCovers(next: seq<nat>, s: Tracer, es: seq<nat>)
    requires InRange(next) && |s.trav| == |next| && EdgesIn(next, es)
    requires Injective(next) && PredClosed(next, s.trav)
    ensures var r := Run(next, s, es);
      PredClosed(next, r.trav) && forall k | 0 <= k < |es| :: r.trav[es[k]]
    decreases |es|
  {
    if es != [] {
      var init := es[..|es| - 1];
      assert EdgesIn(next, init);
      RunCovers(next, s, init);
      var p := Run(next, s, init);
      VisitRecords(next, p, Last(es));
      VisitCovers(next, p, Last(es));
      assert forall k | 0 <= k < |init| :: es[k] == init[k];
    }
  }

  /** The fans before p hold only half-edges, and each of their half-edges is in FanOrder. */
  lemma {:induction false} FanOrderHolds(g: Graph, p: nat)
    requires g.Valid() && p <= |g.fans|
    ensures EdgesIn(g.next, FanOrder(g.fans, p))
    ensures forall q, j | 0 <= q < p && 0 <= j < |g.fans[q]| :: g.fans[q][j] in FanOrder(g.fans, p)
    decreases p
  {
    if p > 0 {
      FanOrderHolds(g, p - 1);
      var order := FanOrder(g.fans, p);
      assert order == FanOrder(g.fans, p - 1) + g.fans[p - 1];
      forall q, j | 0 <= q < p && 0 <= j < |g.fans[q]| ensures g.fans[q][j] in order {
        if q == p - 1 {
          assert order[|FanOrder(g.fans, p - 1)| + j] == g.fans[q][j];
        }
      }
    }
  }

  /** The loop over all fans visits every half-edge. */
  lemma FanOrderHasAll(g: Graph)
    requires g.Valid()
    ensures EdgesIn(g.next, FanOrder(g.fans, |g.fans|))
    ensures forall e | 0 <= e < |g.next| :: e in FanOrder(g.fans, |g.fans|)
  {
    FanOrderHolds(g, |g.fans|);
    forall e | 0 <= e < |g.next| ensures e in FanOrder(g.fans, |g.fans|) {
      var k :| 0 <= k < |g.fans[g.origin[e]]| && g.fans[g.origin[e]][k] == e;
    }
  }

  /**
   * The whole trace, one pass per half-edge fan by fan: it only appends faces
   * and keeps tracing sound; when no two half-edges share a successor and
   * nothing was traversed before, every half-edge ends traversed and on one
   * of the new faces.
   */
  lemma TraceOutcome(g: Graph, t0: seq<bool>, f0: seq<seq<nat>>, trav: seq<bool>, faces: seq<seq<nat>>)
    requires g.Valid() && |t0| == |g.next|
    requires EdgesIn(g.next, FanOrder(g.fans, |g.fans|))
    requires Tracer(trav, faces) == Run(g.next, Tracer(t0, f0), FanOrder(g.fans, |g.fans|))
    ensures |f0| <= |faces| && faces[..|f0|] == f0
    ensures Sound(g.next, t0, trav, faces[|f0|..])
    ensures Injective(g.next) && NoneTraversed(t0) ==> AllOnFaces(trav, faces[|f0|..])
  {
    var s0 := Tracer(t0, f0);
    FanOrderHasAll(g);
    var all := FanOrder(g.fans, |g.fans|);
    RunSound(g.next, s0, all);
    if Injective(g.next) && NoneTraversed(t0) {
      RunCovers(g.next, s0, all);
      forall e | 0 <= e < |trav| ensures trav[e] {
        assert e in all;
        var k :| 0 <= k < |all| && all[k] == e;
      }
    }
  }

  /**
   * Without injective successors the faces need not cover the half-edges:
   * with successors 0->1, 1->2, 2->1, the pass at 0 walks 0, 1, 2 and closes
   * on 1, recording the face [1, 2]; the passes at 1 and 2 find them
   * traversed, and half-edge 0 is left untraversed and on no face.
   */
  lemma LeadInNeverTraced()
    ensures InRange([1, 2, 1])
    ensures Run([1, 2, 1], Tracer([false, false, false], []), [0, 1, 2])
         == Tracer([false, true, true], [[1, 2]])
  {
    var next, s0 := [1, 2, 1], Tracer([false, false, false], []);
    var s1 := Tracer([false, true, true], [[1, 2]]);
    LeadInVisit();
    assert [0, 1, 2][..2] == [0, 1] && [0, 1][..1] == [0] && [0][..0] == [];
    assert Run(next, s0, [0]) == s1;
    assert Run(next, s0, [0, 1]) == s1;
  }

  /** The pass at 0 of the example above. */
  lemma LeadInVisit()
    ensures InRange([1, 2, 1])
    ensures Visit([1, 2, 1], Tracer([false, false, false], []), 0) == Tracer([false, true, true], [[1, 2]])
  {
    var next, t := [1, 2, 1], [false, false, false];
    LeadInWalk();
    assert IndexOf([0, 1, 2], 1) == 1;
    assert [0, 1, 2][1..] == [1, 2];
    assert Marked(t, [1, 2]) == [false, true, true];
  }

  /** The walk from 0 of the example above. */
  lemma LeadInWalk()
    ensures InRange([1, 2, 1]) && OpenWalk([1, 2, 1], [false, false, false], [0])
    ensures Walk([1, 2, 1], [false, false, false], [0]) == [0, 1, 2]
  {
    LeadInWalkOn();
    OpenPrefix([1, 2, 1], [false, false, false], [0, 1, 2], 1);
    assert [0, 1, 2][..1] == [0] && [0] + [1] == [0, 1];
  }

  lemma LeadInWalkOn()
    ensures InRange([1, 2, 1]) && OpenWalk([1, 2, 1], [false, false, false], [0, 1, 2])
    ensures OpenWalk([1, 2, 1], [false, false, false], [0, 1])
    ensures Walk([1, 2, 1], [false, false, false], [0, 1]) == [0, 1, 2]
  {
    LeadInOpen();
    OpenPrefix([1, 2, 1], [false, false, false], [0, 1, 2], 2);
    assert [0, 1, 2][..2] == [0, 1] && [0, 1] + [2] == [0, 1, 2];
  }

  /** The walk 0, 1, 2 of the example above is open, and stops there. */
  lemma LeadInOpen()
    ensures InRange([1, 2, 1]) && OpenWalk([1, 2, 1], [false, false, false], [0, 1, 2])
    ensures Walk([1, 2, 1], [false, false, false], [0, 1, 2]) == [0, 1, 2]
  {
    var next, t, w := [1, 2, 1], [false, false, false], [0, 1, 2];
    assert w[0] == 0 && w[1] == 1 && w[2] == 2;
    assert next[0] == 1 && next[1] == 2 && next[2] == 1;
    assert Chain(next, w);
    assert Distinct(w);
  }

  // ---- the tracer -----------------------------------------------------------

  /**
   * `MapData` after construction: the half-edge graph, one traversed flag per
   * half-edge, and the faces found so far.
   */
  class MapData {
    const graph: Graph
    const traversed: array<bool>
    var faceList: seq<seq<nat>>

    ghost predicate Valid()
      reads this
    {
      graph.Valid() && traversed.Length == |graph.next|
    }

    constructor (g: Graph)
      requires g.Valid()
      ensures Valid() && graph == g && fresh(traversed)
      ensures NoneTraversed(traversed[..]) && faceList == []
    {
      graph := g;
      traversed := new bool[|g.next|](_ => false);
      faceList := [];
    }

    /**
     * `next_vertex`: extends the walk `edgeList` with `current` and its
     * successors, as `Walk` does. If the half-edge after the extended walk is
     * already on it, that half-edge comes back with the extended walk;
     * otherwise nothing comes back and the walk is popped back to `edgeList`.
     */
    method NextVertex(current: nat, edgeList: seq<nat>) returns (result: Option<nat>, list: seq<nat>)
      requires Valid()
      requires OpenWalk(graph.next, traversed[..], edgeList)
      requires current == graph.next[Last(edgeList)]
      decreases traversed.Length - |edgeList|
      ensures var w := Walk(graph.next, traversed[..], edgeList);
        graph.next[Last(w)] in w ==> result == Some(graph.next[Last(w)]) && list == w
      ensures var w := Walk(graph.next, traversed[..], edgeList);
        graph.next[Last(w)] !in w ==> result == None && list == edgeList
    {
      DistinctLength(edgeList, traversed.Length);
      if current !in edgeList {
        if !traversed[current] {
          var pushed := edgeList + [current];
          ExtendWalk(graph.next, traversed[..], edgeList);
          DistinctLength(pushed, traversed.Length);
          var res, l := NextVertex(graph.next[current], pushed);
          if res.None? {
            list := l[..|l| - 1];
            result := None;
          } else {
            list := l;
            result := res;
          }
        } else {
          result, list := None, edgeList;
        }
      } else {
        result, list := Some(current), edgeList;
      }
    }

    /** Sets the traversed flag of every half-edge of `face`. */
    method MarkTraversed(face: seq<nat>)
      requires Valid()
      requires forall k | 0 <= k < |face| :: face[k] < traversed.Length
      modifies traversed
      ensures traversed[..] == Marked(old(traversed[..]), face)
    {
      for j := 0 to |face|
        invariant forall e | 0 <= e < traversed.Length :: traversed[e] == (old(traversed[e]) || e in face[..j])
      {
        traversed[face[j]] := true;
      }
      assert face[..|face|] == face;
    }

    /**
     * One pass of the loop of `find_boundaries` at half-edge `edge`: if it is
     * untraversed, a walk starts there; if the walk closes, the cycle it closed
     * on is recorded as a face and marked. The new flags and face list are
     * those `Visit` gives.
     */
    method TraceFrom(edge: nat)
      requires Valid() && edge < traversed.Length
      modifies this, traversed
      ensures Valid()
      ensures Tracer(traversed[..], faceList) == Visit(graph.next, Tracer(old(traversed[..]), old(faceList)), edge)
    {
      if !traversed[edge] {
        assert OpenWalk(graph.next, traversed[..], [edge]);
        var result, list := NextVertex(graph.next[edge], [edge]);
        if result.Some? {
          CloseWalk(list, IndexOf(list, result.value));
        }
      }
    }

    /**
     * Cuts the closed walk `list` at `i`, the first occurrence of the half-edge
     * it returned to, marks the half-edges of that face and appends it to the
     * face list.
     */
    method CloseWalk(list: seq<nat>, i: nat)
      requires Valid() && OpenWalk(graph.next, traversed[..], list)
      requires i < |list| && graph.next[Last(list)] == list[i]
      modifies this, traversed
      ensures Valid()
      ensures Face(graph.next, list[i..]) && Untouched(old(traversed[..]), list[i..])
      ensures traversed[..] == Marked(old(traversed[..]), list[i..])
      ensures faceList == old(faceList) + [list[i..]]
    {
      var face := list[i..];
      SuffixIsFace(graph.next, traversed[..], list, i);
      MarkTraversed(face);
      faceList := faceList + [face];
    }

    /**
     * The inner loop of `find_boundaries` over the fan of point `p`: one pass
     * of `TraceFrom` at each of its half-edges, in order. From the state the
     * run over the fans before `p` left, it leaves the state of the run over
     * the fans up to and including `p`.
     */
    method TraceFan(p: nat, ghost s0: Tracer)
      requires Valid() && p < |graph.fans| && |s0.trav| == |graph.next|
      requires EdgesIn(graph.next, FanOrder(graph.fans, p))
      requires Tracer(traversed[..], faceList) == Run(graph.next, s0, FanOrder(graph.fans, p))
      modifies this, traversed
      ensures Valid()
      ensures EdgesIn(graph.next, FanOrder(graph.fans, p + 1))
      ensures Tracer(traversed[..], faceList) == Run(graph.next, s0, FanOrder(graph.fans, p + 1))
    {
      var fan := graph.fans[p];
      ghost var mid := Tracer(traversed[..], faceList);
      assert EdgesIn(graph.next, fan);
      assert fan[..0] == [];
      for k := 0 to |fan|
        invariant Valid()
        invariant Tracer(traversed[..], faceList) == Run(graph.next, mid, fan[..k])
      {
        TraceFrom(fan[k]);
        RunStep(graph.next, mid, fan, k);
      }
      assert fan[..|fan|] == fan;
      RunNextFan(graph.next, graph.fans, s0, p);
    }

    /**
     * The loops of `find_boundaries`: the passes of `TraceFan` over the fan
     * of every point, in point order, which visit the half-edges in the order
     * `FanOrder` lists them.
     */
    method TraceAllFans()
      requires Valid()
      modifies this, traversed
      ensures Valid()
      ensures EdgesIn(graph.next, FanOrder(graph.fans, |graph.fans|))
      ensures Tracer(traversed[..], faceList)
          == Run(graph.next, Tracer(old(traversed[..]), old(faceList)), FanOrder(graph.fans, |graph.fans|))
    {
      ghost var s0 := Tracer(traversed[..], faceList);
      for p := 0 to |graph.fans|
        invariant Valid()
        invariant EdgesIn(graph.next, FanOrder(graph.fans, p))
        invariant Tracer(traversed[..], faceList) == Run(graph.next, s0, FanOrder(graph.fans, p))
      {
        TraceFan(p, s0);
      }
    }

    /**
     * `find_boundaries`: one pass of `TraceFrom` at every half-edge, fan by
     * fan, leaving the flags and faces `Run` gives over `FanOrder`. Faces are
     * only appended, and the new ones are sound; when no two half-edges share
     * a successor and nothing was traversed before, they cover every
     * half-edge.
     */
    method FindBoundaries()
      requires Valid()
      modifies this, traversed
      ensures Valid()
      ensures EdgesIn(graph.next, FanOrder(graph.fans, |graph.fans|))
      ensures Tracer(traversed[..], faceList)
          == Run(graph.next, Tracer(old(traversed[..]), old(faceList)), FanOrder(graph.fans, |graph.fans|))
      ensures |old(faceList)| <= |faceList| && faceList[..|old(faceList)|] == old(faceList)
      ensures Sound(graph.next, old(traversed[..]), traversed[..], faceList[|old(faceList)|..])
      ensures Injective(graph.next) && NoneTraversed(old(traversed[..])) ==>
        AllOnFaces(traversed[..], faceList[|old(faceList)|..])
    {
      TraceAllFans();
      TraceOutcome(graph, old(traversed[..]), old(faceList), traversed[..], faceList);
    }

    /**
     * The face ordering of `print_face_list`: sorts the faces by length, and
     * the last one, if any, is the outer boundary.
     */
    method OrderFaces() returns (outer: Option<seq<nat>>)
      modifies this
      ensures faceList == FaceOrder.SortByLength(old(faceList))
      ensures outer.Some? <==> |old(faceList)| > 0
      ensures outer.Some? ==> outer.value == Last(faceList)
      ensures outer.Some? ==> forall j | 0 <= j < |old(faceList)| :: |old(faceList)[j]| <= |outer.value|
    {
      if |faceList| > 0 {
        FaceOrder.OuterFaceIsLongest(faceList);
      }
      faceList := FaceOrder.SortByLength(faceList);
      outer := if |faceList| > 0 then Some(Last(faceList)) else None;
    }
  }

  /**
   * `MapData.__init__`: builds the half-edge graph from the neighbour lists,
   * with nothing traversed and no face yet; fails where the construction does.
   */
  method Load(neighbors: seq<seq<nat>>, angle: RawAngle) returns (r: Result<MapData>)
    requires WellFormed(neighbors)
    ensures r.Ok? <==> AllSelectable(neighbors, angle)
    ensures r.Err? ==> exists i, k :: FirstFailureAt(neighbors, angle, i, k, r.error)
    ensures r.Ok? ==>
      && fresh(r.value) && fresh(r.value.traversed) && r.value.Valid()
      && r.value.graph.adjs == neighbors
      && Arena(neighbors, r.value.graph.origin, r.value.graph.dest, r.value.graph.fans)
      && NoneTraversed(r.value.traversed[..]) && r.value.faceList == []
      && forall e | 0 <= e < |r.value.graph.next| ::
           NextChosen(angle, r.value.graph.origin, r.value.graph.dest, r.value.graph.fans, neighbors, e,
                      Choice(r.value.graph.next[e], r.value.graph.adjAngles[e]))
  {
    var g := GenerateEdges(neighbors, angle);
    if g.Err? {
      return Err(g.error);
    }
    var m := new MapData(g.value);
    r := Ok(m);
  }
}
