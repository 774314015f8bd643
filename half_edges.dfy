/**
 * Building the half-edge structure of the contiguity graph: one directed
 * half-edge per (point, neighbour) entry, grouped per point into its fan, and
 * for every half-edge the successor used to trace faces.
 *
 * Points are ids 0..N-1 and the neighbour relation is a sequence indexed by
 * point id. Half-edges live in an arena: ids 0..M-1, numbered in the order in
 * which they are created.
 */
module HalfEdges {
  import opened Basics
  import opened Angles

  /**
   * The half-edge arena. `origin[e]`, `dest[e]`: the two ends of half-edge e.
   * `fans[p]`: the half-edges leaving point p, in neighbour order.
   * `adjs[p]`: the neighbours of point p, in the order they were recorded.
   * `next[e]`, `adjAngles[e]`: the successor of e and its sorted candidate angles.
   * A half-edge's own candidate list is `fans[dest[e]]`.
   */
  datatype Graph = Graph(
    origin: seq<nat>,
    dest: seq<nat>,
    fans: seq<seq<nat>>,
    adjs: seq<seq<nat>>,
    next: seq<nat>,
    adjAngles: seq<seq<real>>)
  {
    /** Every half-edge sits in its origin's fan once, and its successor leaves its destination. */
    ghost predicate Valid() {
      && |origin| == |dest| == |next| == |adjAngles|
      && |fans| == |adjs|
      && (forall p | 0 <= p < |fans| :: Distinct(fans[p]))
      && (forall p, k | 0 <= p < |fans| && 0 <= k < |fans[p]| ::
            fans[p][k] < |origin| && origin[fans[p][k]] == p)
      && (forall e | 0 <= e < |origin| ::
            && origin[e] < |fans| && dest[e] < |fans|
            && e in fans[origin[e]]
            && next[e] < |next| && origin[next[e]] == dest[e])
    }
  }

  /** Every neighbour id names a point. */
  ghost predicate WellFormed(neighbors: seq<seq<nat>>) {
    forall i, k | 0 <= i < |neighbors| && 0 <= k < |neighbors[i]| :: neighbors[i][k] < |neighbors|
  }

  /**
   * What the half-edges built so far satisfy: each fan lists half-edges
   * leaving its point, towards that point's neighbours in neighbour order, with
   * no half-edge twice, and every half-edge appears in its origin's fan.
   */
  ghost predicate FansSoFar(neighbors: seq<seq<nat>>, origin: seq<nat>, dest: seq<nat>, fans: seq<seq<nat>>) {
    && |origin| == |dest|
    && |fans| == |neighbors|
    && (forall p | 0 <= p < |fans| :: |fans[p]| <= |neighbors[p]| && Distinct(fans[p]))
    && (forall p, k | 0 <= p < |fans| && 0 <= k < |fans[p]| ::
          && fans[p][k] < |origin|
          && origin[fans[p][k]] == p
          && dest[fans[p][k]] == neighbors[p][k])
    && (forall e | 0 <= e < |origin| :: origin[e] < |fans| && e in fans[origin[e]])
  }

  /** The finished arena: one half-edge p->neighbors[p][k] for every entry, at fans[p][k]. */
  ghost predicate Arena(neighbors: seq<seq<nat>>, origin: seq<nat>, dest: seq<nat>, fans: seq<seq<nat>>) {
    && FansSoFar(neighbors, origin, dest, fans)
    && forall p | 0 <= p < |fans| :: |fans[p]| == |neighbors[p]|
  }

  /** Appending half-edge i->neighbors[i][k] to i's fan keeps the arena consistent. */
  lemma AppendEdge(neighbors: seq<seq<nat>>, origin: seq<nat>, dest: seq<nat>, fans: seq<seq<nat>>, i: nat)
    requires FansSoFar(neighbors, origin, dest, fans)
    requires i < |fans| && |fans[i]| < |neighbors[i]|
    ensures FansSoFar(neighbors, origin + [i], dest + [neighbors[i][|fans[i]|]],
                      fans[i := fans[i] + [|origin|]])
  {
    var e := |origin|;
    var origin', dest' := origin + [i], dest + [neighbors[i][|fans[i]|]];
    var fans' := fans[i := fans[i] + [e]];
    forall p, k | 0 <= p < |fans'| && 0 <= k < |fans'[p]|
      ensures fans'[p][k] < |origin'| && origin'[fans'[p][k]] == p && dest'[fans'[p][k]] == neighbors[p][k]
    {
      if p == i && k == |fans[i]| {
        assert fans'[p][k] == e;
      } else {
        assert fans'[p][k] == fans[p][k];
      }
    }
    forall x | 0 <= x < |origin'| ensures origin'[x] < |fans'| && x in fans'[origin'[x]] {
      if x < e {
        assert x in fans[origin[x]];
      } else {
        assert fans'[i][|fans[i]|] == x;
      }
    }
    assert Distinct(fans'[i]) by {
      assert forall k | 0 <= k < |fans[i]| :: fans[i][k] < e;
    }
  }

  /**
   * Progress of `get_edges`: the points before i are done, point i has its
   * first k half-edges, and the points after i have none yet.
   */
  ghost predicate BuiltUpTo(neighbors: seq<seq<nat>>, origin: seq<nat>, dest: seq<nat>,
                            fans: seq<seq<nat>>, adjs: seq<seq<nat>>, i: nat, k: nat)
  {
    && FansSoFar(neighbors, origin, dest, fans)
    && |adjs| == |neighbors|
    && (i < |neighbors| ==> k <= |neighbors[i]|)
    && forall p | 0 <= p < |neighbors| ::
         && (p < i ==> |fans[p]| == |neighbors[p]| && adjs[p] == neighbors[p])
         && (p == i ==> |fans[p]| == k && adjs[p] == neighbors[p][..k])
         && (p > i ==> fans[p] == [] && adjs[p] == [])
  }

  /** Adding half-edge i->neighbors[i][k] advances the construction by one. */
  lemma BuildStep(neighbors: seq<seq<nat>>, origin: seq<nat>, dest: seq<nat>,
                  fans: seq<seq<nat>>, adjs: seq<seq<nat>>, i: nat, k: nat)
    requires BuiltUpTo(neighbors, origin, dest, fans, adjs, i, k)
    requires i < |neighbors| && k < |neighbors[i]|
    ensures BuiltUpTo(neighbors, origin + [i], dest + [neighbors[i][k]], fans[i := fans[i] + [|origin|]],
                      adjs[i := adjs[i] + [neighbors[i][k]]], i, k + 1)
  {
    AppendEdge(neighbors, origin, dest, fans, i);
    assert neighbors[i][..k] + [neighbors[i][k]] == neighbors[i][..k + 1];
  }

  /** Point i done: the construction moves on to the next point. */
  lemma NextPoint(neighbors: seq<seq<nat>>, origin: seq<nat>, dest: seq<nat>,
                  fans: seq<seq<nat>>, adjs: seq<seq<nat>>, i: nat)
    requires i < |neighbors| && BuiltUpTo(neighbors, origin, dest, fans, adjs, i, |neighbors[i]|)
    ensures BuiltUpTo(neighbors, origin, dest, fans, adjs, i + 1, 0)
  {
    assert neighbors[i][..|neighbors[i]|] == neighbors[i];
  }

  /** Before any half-edge: every fan and neighbour list is empty. */
  lemma BuildStart(neighbors: seq<seq<nat>>)
    ensures BuiltUpTo(neighbors, [], [], seq(|neighbors|, _ => []), seq(|neighbors|, _ => []), 0, 0)
  {
  }

  /** After the last point the arena is complete and the neighbour lists are the input's. */
  lemma BuildDone(neighbors: seq<seq<nat>>, origin: seq<nat>, dest: seq<nat>,
                  fans: seq<seq<nat>>, adjs: seq<seq<nat>>)
    requires BuiltUpTo(neighbors, origin, dest, fans, adjs, |neighbors|, 0)
    ensures Arena(neighbors, origin, dest, fans) && adjs == neighbors
  {
  }

  /**
   * `get_edges`: for every point i and every neighbour j of i, in order, a new
   * half-edge i->j is appended to i's fan and j to i's neighbour list.
   */
  method GetEdges(neighbors: seq<seq<nat>>)
    returns (origin: seq<nat>, dest: seq<nat>, fans: seq<seq<nat>>, adjs: seq<seq<nat>>)
    requires WellFormed(neighbors)
    ensures Arena(neighbors, origin, dest, fans)
    ensures adjs == neighbors
  {
    var n := |neighbors|;
    origin, dest := [], [];
    fans := seq(n, _ => []);
    adjs := seq(n, _ => []);
    BuildStart(neighbors);
    for i := 0 to n
      invariant BuiltUpTo(neighbors, origin, dest, fans, adjs, i, 0)
    {
      for k := 0 to |neighbors[i]|
        invariant BuiltUpTo(neighbors, origin, dest, fans, adjs, i, k)
      {
        var j := neighbors[i][k];
        BuildStep(neighbors, origin, dest, fans, adjs, i, k);
        origin, dest := origin + [i], dest + [j];
        fans := fans[i := fans[i] + [|origin| - 1]];
        adjs := adjs[i := adjs[i] + [j]];
      }
      NextPoint(neighbors, origin, dest, fans, adjs, i);
    }
    BuildDone(neighbors, origin, dest, fans, adjs);
  }

  /** Every half-edge i->v of the input can be given a successor among v's fan. */
  ghost predicate AllSelectable(neighbors: seq<seq<nat>>, angle: RawAngle)
    requires WellFormed(neighbors)
  {
    forall i, k | 0 <= i < |neighbors| && 0 <= k < |neighbors[i]| ::
      Selectable(Turns(angle, i, neighbors[i][k], neighbors[neighbors[i][k]]))
  }

  /**
   * Half-edge i->neighbors[i][k] is the first, in point order and then
   * neighbour order, whose selection fails, and it fails with `err`.
   */
  ghost predicate FirstFailureAt(neighbors: seq<seq<nat>>, angle: RawAngle, i: nat, k: nat, err: Error)
    requires WellFormed(neighbors)
  {
    && i < |neighbors| && k < |neighbors[i]|
    && SelectionFailure(Turns(angle, i, neighbors[i][k], neighbors[neighbors[i][k]])) == Some(err)
    && forall q, j | 0 <= q < |neighbors| && 0 <= j < |neighbors[q]| && (q < i || (q == i && j < k)) ::
         Selectable(Turns(angle, q, neighbors[q][j], neighbors[neighbors[q][j]]))
  }

  /** There is at most one first failure, so it fixes the error raised. */
  lemma FirstFailureUnique(neighbors: seq<seq<nat>>, angle: RawAngle, i: nat, k: nat, err: Error,
                           i': nat, k': nat, err': Error)
    requires WellFormed(neighbors)
    requires FirstFailureAt(neighbors, angle, i, k, err) && FirstFailureAt(neighbors, angle, i', k', err')
    ensures i == i' && k == k' && err == err'
  {
  }

  /** A first failure exists exactly when some half-edge is not selectable. */
  lemma {:induction false} FirstFailureExists(neighbors: seq<seq<nat>>, angle: RawAngle)
    requires WellFormed(neighbors)
    ensures !AllSelectable(neighbors, angle) <==> exists i, k, err :: FirstFailureAt(neighbors, angle, i, k, err)
  {
    if !AllSelectable(neighbors, angle) {
      var i, k :| 0 <= i < |neighbors| && 0 <= k < |neighbors[i]|
        && !Selectable(Turns(angle, i, neighbors[i][k], neighbors[neighbors[i][k]]));
      var p, j := EarliestFailure(neighbors, angle, i, k);
      var err := SelectionFailure(Turns(angle, p, neighbors[p][j], neighbors[neighbors[p][j]])).value;
      assert FirstFailureAt(neighbors, angle, p, j, err);
    }
  }

  /** From a failing half-edge, the earliest failing one at or before it. */
  lemma {:induction false} EarliestFailure(neighbors: seq<seq<nat>>, angle: RawAngle, i: nat, k: nat)
    returns (p: nat, j: nat)
    requires WellFormed(neighbors) && i < |neighbors| && k < |neighbors[i]|
    requires !Selectable(Turns(angle, i, neighbors[i][k], neighbors[neighbors[i][k]]))
    ensures p < |neighbors| && j < |neighbors[p]|
    ensures !Selectable(Turns(angle, p, neighbors[p][j], neighbors[neighbors[p][j]]))
    ensures forall q, l | 0 <= q < |neighbors| && 0 <= l < |neighbors[q]| && (q < p || (q == p && l < j)) ::
      Selectable(Turns(angle, q, neighbors[q][l], neighbors[neighbors[q][l]]))
    decreases i, k
  {
    var earlier := exists q, l | 0 <= q < |neighbors| && 0 <= l < |neighbors[q]| && (q < i || (q == i && l < k)) ::
      !Selectable(Turns(angle, q, neighbors[q][l], neighbors[neighbors[q][l]]));
    if earlier {
      var q, l :| 0 <= q < |neighbors| && 0 <= l < |neighbors[q]| && (q < i || (q == i && l < k))
        && !Selectable(Turns(angle, q, neighbors[q][l], neighbors[neighbors[q][l]]));
      p, j := EarliestFailure(neighbors, angle, q, l);
    } else {
      p, j := i, k;
    }
  }

  /**
   * A selection that fails at half-edge fans[p][k], after every earlier one
   * succeeded, is the first failure, with the error the selection raised.
   */
  lemma FailureFound(angle: RawAngle, neighbors: seq<seq<nat>>, origin: seq<nat>, dest: seq<nat>,
                     fans: seq<seq<nat>>, next: seq<nat>, adjAngles: seq<seq<real>>, p: nat, k: nat, err: Error)
    requires Arena(neighbors, origin, dest, fans) && WellFormed(neighbors)
    requires p < |fans| && k < |fans[p]|
    requires ChosenUpTo(angle, neighbors, origin, dest, fans, next, adjAngles, p, k)
    requires var e := fans[p][k];
      SelectionFailure(Turns(angle, origin[e], dest[e], Dests(dest, fans[dest[e]]))) == Some(err)
    ensures FirstFailureAt(neighbors, angle, p, k, err)
  {
    var e := fans[p][k];
    FanDests(neighbors, origin, dest, fans, dest[e]);
  }

  /** The successor and angles recorded for half-edge e are those the selection picks. */
  ghost predicate NextChosen(angle: RawAngle, origin: seq<nat>, dest: seq<nat>, fans: seq<seq<nat>>,
                             adjs: seq<seq<nat>>, e: nat, c: Choice)
  {
    && e < |origin| && e < |dest| && dest[e] < |fans| && dest[e] < |adjs|
    && SmallestTurn(fans[dest[e]], Turns(angle, origin[e], dest[e], adjs[dest[e]]), c)
  }

  /** The candidates of a half-edge ending at v point at v's neighbours. */
  lemma FanDests(neighbors: seq<seq<nat>>, origin: seq<nat>, dest: seq<nat>, fans: seq<seq<nat>>, v: nat)
    requires Arena(neighbors, origin, dest, fans) && v < |fans|
    ensures forall k | 0 <= k < |fans[v]| :: fans[v][k] < |dest|
    ensures Dests(dest, fans[v]) == neighbors[v]
  {
  }

  /**
   * The half-edges of the fans before point p, and the first k of p's fan,
   * have their successor chosen, and their candidates were selectable.
   */
  ghost predicate ChosenUpTo(angle: RawAngle, neighbors: seq<seq<nat>>, origin: seq<nat>, dest: seq<nat>,
                             fans: seq<seq<nat>>, next: seq<nat>, adjAngles: seq<seq<real>>, p: nat, k: nat)
    requires Arena(neighbors, origin, dest, fans) && WellFormed(neighbors)
  {
    && |next| == |adjAngles| == |origin|
    && forall q, j | 0 <= q < |fans| && 0 <= j < |fans[q]| && (q < p || (q == p && j < k)) ::
         && NextChosen(angle, origin, dest, fans, neighbors, fans[q][j], Choice(next[fans[q][j]], adjAngles[fans[q][j]]))
         && Selectable(Turns(angle, q, neighbors[q][j], neighbors[neighbors[q][j]]))
  }

  /** Recording the choice for half-edge fans[p][k] extends ChosenUpTo by one. */
  lemma ChooseOne(angle: RawAngle, neighbors: seq<seq<nat>>, origin: seq<nat>, dest: seq<nat>,
                  fans: seq<seq<nat>>, next: seq<nat>, adjAngles: seq<seq<real>>, p: nat, k: nat, c: Choice)
    requires Arena(neighbors, origin, dest, fans) && WellFormed(neighbors)
    requires p < |fans| && k < |fans[p]|
    requires ChosenUpTo(angle, neighbors, origin, dest, fans, next, adjAngles, p, k)
    requires var e := fans[p][k];
      && Selectable(Turns(angle, origin[e], dest[e], Dests(dest, fans[dest[e]])))
      && SmallestTurn(fans[dest[e]], Turns(angle, origin[e], dest[e], Dests(dest, fans[dest[e]])), c)
    ensures var e := fans[p][k];
      ChosenUpTo(angle, neighbors, origin, dest, fans, next[e := c.next], adjAngles[e := c.adjAngles], p, k + 1)
  {
    var e := fans[p][k];
    FanDests(neighbors, origin, dest, fans, dest[e]);
    var next', adjAngles' := next[e := c.next], adjAngles[e := c.adjAngles];
    forall q, j | 0 <= q < |fans| && 0 <= j < |fans[q]| && (q < p || (q == p && j < k + 1))
      ensures NextChosen(angle, origin, dest, fans, neighbors, fans[q][j], Choice(next'[fans[q][j]], adjAngles'[fans[q][j]]))
      ensures Selectable(Turns(angle, q, neighbors[q][j], neighbors[neighbors[q][j]]))
    {
      if q == p && j == k {
      } else {
        assert fans[q][j] != e by {
          if q == p { assert j != k; }
        }
      }
    }
  }

  /** A failed choice for half-edge fans[p][k] shows that some half-edge is not selectable. */
  lemma FailedChoice(angle: RawAngle, neighbors: seq<seq<nat>>, origin: seq<nat>, dest: seq<nat>,
                     fans: seq<seq<nat>>, p: nat, k: nat)
    requires Arena(neighbors, origin, dest, fans) && WellFormed(neighbors)
    requires p < |fans| && k < |fans[p]|
    requires var e := fans[p][k];
      !Selectable(Turns(angle, origin[e], dest[e], Dests(dest, fans[dest[e]])))
    ensures !AllSelectable(neighbors, angle)
  {
    var e := fans[p][k];
    FanDests(neighbors, origin, dest, fans, dest[e]);
  }

  /** Once every fan is done, every half-edge of the input was selectable. */
  lemma AllChosenSelectable(angle: RawAngle, neighbors: seq<seq<nat>>, origin: seq<nat>, dest: seq<nat>,
                            fans: seq<seq<nat>>, next: seq<nat>, adjAngles: seq<seq<real>>)
    requires Arena(neighbors, origin, dest, fans) && WellFormed(neighbors)
    requires ChosenUpTo(angle, neighbors, origin, dest, fans, next, adjAngles, |fans|, 0)
    ensures AllSelectable(neighbors, angle)
  {
    forall i, k | 0 <= i < |neighbors| && 0 <= k < |neighbors[i]|
      ensures Selectable(Turns(angle, i, neighbors[i][k], neighbors[neighbors[i][k]]))
    {
      assert k < |fans[i]|;
    }
  }

  /** Once every fan is done, every half-edge has its successor, which leaves its destination. */
  lemma AllChosen(angle: RawAngle, neighbors: seq<seq<nat>>, origin: seq<nat>, dest: seq<nat>,
                  fans: seq<seq<nat>>, next: seq<nat>, adjAngles: seq<seq<real>>)
    requires Arena(neighbors, origin, dest, fans) && WellFormed(neighbors)
    requires ChosenUpTo(angle, neighbors, origin, dest, fans, next, adjAngles, |fans|, 0)
    ensures forall e | 0 <= e < |next| ::
      NextChosen(angle, origin, dest, fans, neighbors, e, Choice(next[e], adjAngles[e]))
  {
    forall e | 0 <= e < |origin|
      ensures NextChosen(angle, origin, dest, fans, neighbors, e, Choice(next[e], adjAngles[e]))
    {
      var k :| 0 <= k < |fans[origin[e]]| && fans[origin[e]][k] == e;
    }
  }

  /** A graph whose successors are all chosen this way is valid. */
  lemma ChosenGraphValid(angle: RawAngle, neighbors: seq<seq<nat>>, origin: seq<nat>, dest: seq<nat>,
                         fans: seq<seq<nat>>, next: seq<nat>, adjAngles: seq<seq<real>>)
    requires Arena(neighbors, origin, dest, fans) && WellFormed(neighbors)
    requires |next| == |adjAngles| == |origin|
    requires forall e | 0 <= e < |next| ::
      NextChosen(angle, origin, dest, fans, neighbors, e, Choice(next[e], adjAngles[e]))
    ensures Graph(origin, dest, fans, neighbors, next, adjAngles).Valid()
  {
    forall e | 0 <= e < |origin|
      ensures next[e] < |origin| && origin[next[e]] == dest[e]
    {
      assert NextChosen(angle, origin, dest, fans, neighbors, e, Choice(next[e], adjAngles[e]));
      var fan := fans[dest[e]];
      var turns := Turns(angle, origin[e], dest[e], neighbors[dest[e]]);
      var j :| 0 <= j < |fan| && fan[j] == next[e] && turns[j] == adjAngles[e][0]
               && forall i | 0 <= i < |fan| && i != j :: turns[j] < turns[i];
    }
  }

  /**
   * `generate_edges`: builds the arena, then gives every half-edge, fan by
   * fan, the successor chosen among the half-edges leaving its destination.
   * Fails when some half-edge's candidates are empty or tie in angle.
   */
  method GenerateEdges(neighbors: seq<seq<nat>>, angle: RawAngle) returns (r: Result<Graph>)
    requires WellFormed(neighbors)
    ensures r.Ok? <==> AllSelectable(neighbors, angle)
    ensures r.Err? ==> exists i, k :: FirstFailureAt(neighbors, angle, i, k, r.error)
    ensures r.Ok? ==> var g := r.value;
      && g.Valid()
      && Arena(neighbors, g.origin, g.dest, g.fans)
      && g.adjs == neighbors
      && forall e | 0 <= e < |g.next| ::
           NextChosen(angle, g.origin, g.dest, g.fans, g.adjs, e, Choice(g.next[e], g.adjAngles[e]))
  {
    var origin, dest, fans, adjs := GetEdges(neighbors);
    var next: seq<nat> := seq(|origin|, _ => 0);
    var adjAngles: seq<seq<real>> := seq(|origin|, _ => []);
    for p := 0 to |fans|
      invariant ChosenUpTo(angle, neighbors, origin, dest, fans, next, adjAngles, p, 0)
    {
      for k := 0 to |fans[p]|
        invariant ChosenUpTo(angle, neighbors, origin, dest, fans, next, adjAngles, p, k)
      {
        var e := fans[p][k];
        FanDests(neighbors, origin, dest, fans, dest[e]);
        var c := CalcSmallAngle(e, fans[dest[e]], origin, dest, angle);
        if c.Err? {
          FailedChoice(angle, neighbors, origin, dest, fans, p, k);
          FailureFound(angle, neighbors, origin, dest, fans, next, adjAngles, p, k, c.error);
          return Err(c.error);
        }
        ChooseOne(angle, neighbors, origin, dest, fans, next, adjAngles, p, k, c.value);
        next, adjAngles := next[e := c.value.next], adjAngles[e := c.value.adjAngles];
      }
    }
    AllChosenSelectable(angle, neighbors, origin, dest, fans, next, adjAngles);
    AllChosen(angle, neighbors, origin, dest, fans, next, adjAngles);
    ChosenGraphValid(angle, neighbors, origin, dest, fans, next, adjAngles);
    r := Ok(Graph(origin, dest, fans, adjs, next, adjAngles));
  }
}
