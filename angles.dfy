/**
 * Choosing the successor of a half-edge among the half-edges leaving its
 * destination: normalise each turning angle into (0, 360], sort the
 * (angle, half-edge) pairs and keep the first.
 */
module Angles {
  import opened Basics

  /**
   * The signed angle in degrees, at point `v`, from the direction back towards
   * `u` to the direction towards `w`. The system computes it with atan2 of the
   * cross and dot products of the two direction vectors; the model takes it
   * as given.
   */
  type RawAngle = (nat, nat, nat) -> real

  /** Angles at or below zero are turned once more round the full circle. */
  function Normalise(a: real): (r: real)
    ensures r == a || r == a + 360.0
    ensures a <= 0.0 ==> r == a + 360.0
    ensures a > 0.0 ==> r == a
    ensures -360.0 < a ==> 0.0 < r
    ensures a <= 360.0 ==> r <= 360.0
  {
    if a <= 0.0 then a + 360.0 else a
  }

  /** Normalised turning angles, along u->v, towards each destination in `ws`. */
  function Turns(angle: RawAngle, u: nat, v: nat, ws: seq<nat>): seq<real> {
    seq(|ws|, k requires 0 <= k < |ws| => Normalise(angle(u, v, ws[k])))
  }

  /** Destinations of the half-edges in `fan`. */
  function Dests(dest: seq<nat>, fan: seq<nat>): seq<nat>
    requires forall k | 0 <= k < |fan| :: fan[k] < |dest|
  {
    seq(|fan|, k requires 0 <= k < |fan| => dest[fan[k]])
  }

  /** A successor can be chosen: there is a candidate and no two angles tie. */
  predicate Selectable(turns: seq<real>) {
    |turns| > 0 && Distinct(turns)
  }

  /**
   * The error the selection raises over these candidate angles, if any: an
   * empty candidate list fails first, when unpacking the empty sort; a tie
   * fails in the sort itself.
   */
  function SelectionFailure(turns: seq<real>): (r: Option<Error>)
    ensures r.None? <==> Selectable(turns)
    ensures r == Some(EmptyFan) <==> |turns| == 0
    ensures r == Some(TiedAngles) <==> |turns| > 0 && !Distinct(turns)
  {
    if |turns| == 0 then Some(EmptyFan)
    else if !Distinct(turns) then Some(TiedAngles)
    else None
  }

  /** What a half-edge records: its successor and the sorted candidate angles. */
  datatype Choice = Choice(next: nat, adjAngles: seq<real>)

  ghost predicate StrictlyAscending(s: seq<real>) {
    forall i, j | 0 <= i < j < |s| :: s[i] < s[j]
  }

  /**
   * `c` is the outcome of the selection over candidates `fan` whose normalised
   * angles are `turns`: the recorded angles are exactly the candidates' angles
   * in strictly ascending order, and the successor is the candidate with the
   * smallest angle.
   */
  ghost predicate SmallestTurn(fan: seq<nat>, turns: seq<real>, c: Choice) {
    && |turns| == |fan| == |c.adjAngles| > 0
    && StrictlyAscending(c.adjAngles)
    && multiset(c.adjAngles) == multiset(turns)
    && exists k | 0 <= k < |fan| ::
         && fan[k] == c.next
         && turns[k] == c.adjAngles[0]
         && forall j | 0 <= j < |fan| && j != k :: turns[k] < turns[j]
  }

  // ---- sorting (angle, half-edge) pairs by angle -------------------------

  type Pair = (real, nat)

  function Keys(s: seq<Pair>): (ks: seq<real>)
    ensures |ks| == |s|
    ensures forall i | 0 <= i < |s| :: ks[i] == s[i].0
  {
    if s == [] then [] else [s[0].0] + Keys(s[1..])
  }

  function Zip(turns: seq<real>, fan: seq<nat>): seq<Pair>
    requires |turns| == |fan|
  {
    seq(|fan|, k requires 0 <= k < |fan| => (turns[k], fan[k]))
  }

  ghost predicate AscendingByAngle(s: seq<Pair>) {
    forall i, j | 0 <= i < j < |s| :: s[i].0 <= s[j].0
  }

  ghost predicate StrictlyByAngle(s: seq<Pair>) {
    forall i, j | 0 <= i < j < |s| :: s[i].0 < s[j].0
  }

  function InsertByAngle(x: Pair, s: seq<Pair>): (r: seq<Pair>)
    ensures multiset(r) == multiset(s) + multiset{x}
  {
    if s == [] || x.0 <= s[0].0 then
      [x] + s
    else
      assert s == [s[0]] + s[1..];
      [s[0]] + InsertByAngle(x, s[1..])
  }

  /** No pair of `s` has the angle `a`. */
  ghost predicate AngleAbsent(a: real, s: seq<Pair>) {
    forall i | 0 <= i < |s| :: s[i].0 != a
  }

  /** The head of an insertion is the inserted pair or the old head. */
  lemma InsertHead(x: Pair, s: seq<Pair>)
    ensures InsertByAngle(x, s)[0] == x || (s != [] && InsertByAngle(x, s)[0] == s[0])
  {
  }

  lemma {:induction false} InsertKeepsOrder(x: Pair, s: seq<Pair>)
    requires AscendingByAngle(s)
    ensures AscendingByAngle(InsertByAngle(x, s))
  {
    if s != [] && x.0 > s[0].0 {
      var tail := s[1..];
      var r := InsertByAngle(x, tail);
      InsertKeepsOrder(x, tail);
      InsertHead(x, tail);
      assert s[0].0 <= r[0].0;
      assert InsertByAngle(x, s) == [s[0]] + r;
    }
  }

  lemma {:induction false} InsertKeepsStrictOrder(x: Pair, s: seq<Pair>)
    requires StrictlyByAngle(s) && AngleAbsent(x.0, s)
    ensures StrictlyByAngle(InsertByAngle(x, s))
  {
    if s != [] && x.0 > s[0].0 {
      var tail := s[1..];
      var r := InsertByAngle(x, tail);
      InsertKeepsStrictOrder(x, tail);
      InsertHead(x, tail);
      assert s[0].0 < r[0].0;
      assert InsertByAngle(x, s) == [s[0]] + r;
    }
  }

  lemma {:induction false} InsertKeys(x: Pair, s: seq<Pair>)
    ensures multiset(Keys(InsertByAngle(x, s))) == multiset(Keys(s)) + multiset{x.0}
  {
    if s == [] || x.0 <= s[0].0 {
      assert Keys([x] + s) == [x.0] + Keys(s);
    } else {
      var r := InsertByAngle(x, s[1..]);
      InsertKeys(x, s[1..]);
      assert Keys(s) == [s[0].0] + Keys(s[1..]);
      assert Keys([s[0]] + r) == [s[0].0] + Keys(r);
    }
  }

  /** Python's `sorted` on (angle, half-edge) pairs, for pairs whose angles differ. */
  function SortByAngle(s: seq<Pair>): (r: seq<Pair>)
    ensures multiset(r) == multiset(s)
  {
    if s == [] then
      []
    else
      assert s == [s[0]] + s[1..];
      InsertByAngle(s[0], SortByAngle(s[1..]))
  }

  lemma {:induction false} SortByAngleAscends(s: seq<Pair>)
    ensures AscendingByAngle(SortByAngle(s))
  {
    if s != [] {
      SortByAngleAscends(s[1..]);
      InsertKeepsOrder(s[0], SortByAngle(s[1..]));
    }
  }

  lemma {:induction false} SortByAngleKeys(s: seq<Pair>)
    ensures multiset(Keys(SortByAngle(s))) == multiset(Keys(s))
  {
    if s != [] {
      SortByAngleKeys(s[1..]);
      InsertKeys(s[0], SortByAngle(s[1..]));
      assert Keys(s) == [s[0].0] + Keys(s[1..]);
    }
  }

  lemma {:induction false} SortByAngleStrict(s: seq<Pair>)
    requires Distinct(Keys(s))
    ensures StrictlyByAngle(SortByAngle(s))
  {
    if s != [] {
      var tail := s[1..];
      var rest := SortByAngle(tail);
      assert Distinct(Keys(tail)) by {
        assert forall m | 0 <= m < |tail| :: Keys(tail)[m] == Keys(s)[m + 1];
      }
      SortByAngleStrict(tail);
      forall i | 0 <= i < |rest| ensures rest[i].0 != s[0].0 {
        assert rest[i] in multiset(tail);
        var m :| 0 <= m < |tail| && tail[m] == rest[i];
        assert rest[i] == s[m + 1];
        assert Keys(s)[0] != Keys(s)[m + 1];
      }
      InsertKeepsStrictOrder(s[0], rest);
    }
  }

  /**
   * The sorted pairs are in ascending order of angle, strictly so when no two
   * angles tie, and carry the same angles as the input.
   */
  lemma SortByAngleSorts(s: seq<Pair>)
    ensures AscendingByAngle(SortByAngle(s))
    ensures multiset(Keys(SortByAngle(s))) == multiset(Keys(s))
    ensures Distinct(Keys(s)) ==> StrictlyByAngle(SortByAngle(s))
  {
    SortByAngleAscends(s);
    SortByAngleKeys(s);
    if Distinct(Keys(s)) {
      SortByAngleStrict(s);
    }
  }

  /** The head of a strictly ascending rearrangement is below every other pair. */
  lemma HeadIsBelow(pairs: seq<Pair>, sorted: seq<Pair>)
    requires |sorted| > 0 && StrictlyByAngle(sorted) && multiset(sorted) == multiset(pairs)
    ensures forall j | 0 <= j < |pairs| :: pairs[j] == sorted[0] || sorted[0].0 < pairs[j].0
  {
    forall j | 0 <= j < |pairs| ensures pairs[j] == sorted[0] || sorted[0].0 < pairs[j].0 {
      assert pairs[j] in multiset(sorted);
      var m :| 0 <= m < |sorted| && sorted[m] == pairs[j];
    }
  }

  /**
   * Any strictly ascending rearrangement of the (angle, half-edge) pairs
   * selects, at its head, the candidate with the smallest angle.
   */
  lemma HeadOfRearrangement(turns: seq<real>, fan: seq<nat>, sorted: seq<Pair>)
    requires |turns| == |fan| && Selectable(turns)
    requires StrictlyByAngle(sorted) && multiset(sorted) == multiset(Zip(turns, fan))
    requires multiset(Keys(sorted)) == multiset(turns)
    ensures |sorted| > 0 && SmallestTurn(fan, turns, Choice(sorted[0].1, Keys(sorted)))
  {
    var pairs := Zip(turns, fan);
    assert |sorted| == |multiset(pairs)| == |pairs|;
    var c := Choice(sorted[0].1, Keys(sorted));
    assert sorted[0] in multiset(pairs);
    var k :| 0 <= k < |pairs| && pairs[k] == sorted[0];
    HeadIsBelow(pairs, sorted);
    forall j | 0 <= j < |fan| && j != k ensures turns[k] < turns[j] {
      assert pairs[j].0 == turns[j] != turns[k];
    }
    assert StrictlyAscending(c.adjAngles);
    assert fan[k] == c.next && turns[k] == c.adjAngles[0];
  }

  /**
   * Sorting the candidates by distinct angles and taking the first yields the
   * successor with the smallest angle, and the recorded angles are the
   * candidates' angles in strictly ascending order.
   */
  lemma SortedHeadIsSmallest(turns: seq<real>, fan: seq<nat>)
    requires |turns| == |fan| && Selectable(turns)
    ensures var sorted := SortByAngle(Zip(turns, fan));
      |sorted| > 0 && SmallestTurn(fan, turns, Choice(sorted[0].1, Keys(sorted)))
  {
    var pairs := Zip(turns, fan);
    assert Keys(pairs) == turns;
    SortByAngleSorts(pairs);
    HeadOfRearrangement(turns, fan, SortByAngle(pairs));
  }

  /**
   * `calc_small_angle`: the angle of every candidate, normalised, then the
   * candidates sorted by angle; the first one is the successor.
   */
  method CalcSmallAngle(e: nat, fan: seq<nat>, origin: seq<nat>, dest: seq<nat>, angle: RawAngle)
    returns (r: Result<Choice>)
    requires e < |origin| == |dest|
    requires forall k | 0 <= k < |fan| :: fan[k] < |dest| && origin[fan[k]] == dest[e]
    ensures r == Err(EmptyFan) <==> |fan| == 0
    ensures r.Ok? <==> Selectable(Turns(angle, origin[e], dest[e], Dests(dest, fan)))
    ensures r.Ok? ==> SmallestTurn(fan, Turns(angle, origin[e], dest[e], Dests(dest, fan)), r.value)
    ensures r.Err? ==> SelectionFailure(Turns(angle, origin[e], dest[e], Dests(dest, fan))) == Some(r.error)
  {
    ghost var turns := Turns(angle, origin[e], dest[e], Dests(dest, fan));
    var angles: seq<real> := [];
    for k := 0 to |fan|
      invariant |angles| == k
      invariant forall j | 0 <= j < k :: angles[j] == angle(origin[e], dest[e], dest[fan[j]])
    {
      angles := angles + [angle(origin[e], dest[e], dest[fan[k]])];
    }
    for i := 0 to |angles|
      invariant |angles| == |fan|
      invariant forall j | 0 <= j < i :: angles[j] == turns[j]
      invariant forall j | i <= j < |angles| :: angles[j] == angle(origin[e], dest[e], dest[fan[j]])
    {
      if angles[i] <= 0.0 {
        angles := angles[i := angles[i] + 360.0];
      }
    }
    assert angles == turns;
    if |angles| == 0 {
      return Err(EmptyFan);
    }
    if !Distinct(angles) {
      return Err(TiedAngles);
    }
    var sorted := SortByAngle(Zip(angles, fan));
    r := Ok(Choice(sorted[0].1, Keys(sorted)));
    SortedHeadIsSmallest(angles, fan);
  }
}
