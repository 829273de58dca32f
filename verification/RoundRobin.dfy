/**
 The walk of the weighted round-robin scheduler, on values: a cursor goes around the units, and
 once a round the weight that a unit needs in order to be picked goes down by one.
 */
module RoundRobin {
  /** Where the walk stands: the index last visited, and the weight needed in this round. */
  datatype Cursor = Cursor(i: nat, cw: nat)

  function Step(n: nat, max: nat, c: Cursor): Cursor
    requires n > 0
  {
    Cursor((c.i + 1) % n, if c.i != 0 then c.cw else if c.cw <= 1 then max else c.cw - 1)
  }

  function Walk(n: nat, max: nat, c: Cursor, k: nat): Cursor
    requires n > 0
  {
    if k == 0 then c else Step(n, max, Walk(n, max, c, k - 1))
  }

  /** The unit at the cursor is heavy enough for the round. */
  predicate Picks(ws: seq<nat>, c: Cursor)
    requires c.i < |ws|
  {
    ws[c.i] >= c.cw
  }

  lemma {:induction false} WalkIndex(n: nat, max: nat, c: Cursor, k: nat)
    requires n > 0
    ensures k > 0 ==> Walk(n, max, c, k).i < n
    ensures c.i < n ==> Walk(n, max, c, k).i < n
  {
    if k > 0 { WalkIndex(n, max, c, k - 1); }
  }

  lemma {:induction false} WalkOn(n: nat, max: nat, c: Cursor, j: nat, k: nat)
    requires n > 0
    ensures Walk(n, max, Walk(n, max, c, j), k) == Walk(n, max, c, j + k)
  {
    if k > 0 { WalkOn(n, max, c, j, k - 1); }
  }

  /** The units picked in `k` steps. */
  function Picked(ws: seq<nat>, max: nat, c: Cursor, k: nat): (p: seq<nat>)
    requires |ws| > 0 && c.i < |ws|
    ensures forall x :: x in p ==> x < |ws|
  {
    if k == 0 then []
    else
      var d := Walk(|ws|, max, c, k);
      WalkIndex(|ws|, max, c, k);
      Picked(ws, max, c, k - 1) + if Picks(ws, d) then [d.i] else []
  }

  /** How often `u` occurs. */
  function Count(p: seq<nat>, u: nat): nat {
    if p == [] then 0 else Count(p[..|p|-1], u) + if p[|p|-1] == u then 1 else 0
  }

  lemma {:induction false} CountOn(p: seq<nat>, q: seq<nat>, u: nat)
    ensures Count(p + q, u) == Count(p, u) + Count(q, u)
  {
    if q == [] {
      assert p + q == p;
    } else {
      assert (p + q)[..|p+q|-1] == p + q[..|q|-1];
      CountOn(p, q[..|q|-1], u);
    }
  }

  lemma CountOne(x: nat, u: nat)
    ensures Count([x], u) == if x == u then 1 else 0
  {
    assert [x][..0] == [];
  }

  // ----- one cycle

  /** No unit is heavier than `max`, and one is that heavy. */
  ghost predicate Balanced(ws: seq<nat>, max: nat) {
    && max > 0 && (forall u :: 0 <= u < |ws| ==> ws[u] <= max)
    && exists u :: 0 <= u < |ws| && ws[u] == max
  }

  /** The cursor is one that a walk over the units reaches. */
  predicate Ready(n: nat, max: nat, c: Cursor) { c.i < n && c.cw <= max && (c.cw == 0 ==> c.i == 0) }

  /** The weight needed in the round that starts when the walk leaves index 0 with `cw`. */
  function Lower(max: nat, cw: nat): nat { if cw <= 1 then max else cw - 1 }

  lemma NextIndex(i: nat, n: nat)
    requires i < n
    ensures (i + 1) % n == if i + 1 == n then 0 else i + 1
  {
  }

  /** A round visits the indices 1, 2, ... and last 0. */
  lemma {:induction false} RoundPosition(n: nat, max: nat, cw: nat, j: nat)
    requires n > 0 && 0 < j <= n
    ensures Walk(n, max, Cursor(0, cw), j) == Cursor(if j == n then 0 else j, Lower(max, cw))
  {
    var start := Cursor(0, cw);
    NextIndex(j - 1, n);
    if j > 1 {
      RoundPosition(n, max, cw, j - 1);
    } else {
      assert Walk(n, max, start, 0) == start;
    }
  }

  /** In a part of a round a unit is picked if it has been visited and is heavy enough. */
  lemma {:induction false} RoundPicks(ws: seq<nat>, max: nat, cw: nat, j: nat, u: nat)
    requires j <= |ws| && u < |ws|
    ensures Count(Picked(ws, max, Cursor(0, cw), j), u) ==
            if ws[u] >= Lower(max, cw) && (1 <= u <= j || (u == 0 && j == |ws|)) then 1 else 0
  {
    if j > 0 {
      RoundPosition(|ws|, max, cw, j);
      RoundPicks(ws, max, cw, j - 1, u);
      PickedLast(ws, max, Cursor(0, cw), j, u);
    }
  }

  lemma PickedLast(ws: seq<nat>, max: nat, c: Cursor, k: nat, u: nat)
    requires |ws| > 0 && c.i < |ws| && k > 0
    ensures Walk(|ws|, max, c, k).i < |ws|
    ensures var d := Walk(|ws|, max, c, k);
      Count(Picked(ws, max, c, k), u) == Count(Picked(ws, max, c, k - 1), u) + if Picks(ws, d) && d.i == u then 1 else 0
  {
    WalkIndex(|ws|, max, c, k);
    var d := Walk(|ws|, max, c, k);
    var last := if Picks(ws, d) then [d.i] else [];
    CountOn(Picked(ws, max, c, k - 1), last, u);
    CountOne(d.i, u);
  }

  lemma {:induction false} PickedOn(ws: seq<nat>, max: nat, c: Cursor, j: nat, k: nat)
    requires |ws| > 0 && c.i < |ws|
    ensures Walk(|ws|, max, c, j).i < |ws|
    ensures Picked(ws, max, c, j + k) == Picked(ws, max, c, j) + Picked(ws, max, Walk(|ws|, max, c, j), k)
  {
    WalkIndex(|ws|, max, c, j);
    if k > 0 {
      PickedOn(ws, max, c, j, k - 1);
      WalkOn(|ws|, max, c, j, k);
    }
  }

  /** How many steps `r` rounds over `n` units take. */
  function Steps(r: nat, n: nat): nat { if r == 0 then 0 else Steps(r - 1, n) + n }

  /** The weight needed before round `r` of a cycle. */
  function Needed(max: nat, r: nat): nat
    requires r <= max
  {
    if r == 0 then 1 else max - r + 1
  }

  lemma {:induction false} RoundStarts(n: nat, max: nat, r: nat)
    requires r <= max && n > 0
    ensures Walk(n, max, Cursor(0, 1), Steps(r, n)) == Cursor(0, Needed(max, r))
  {
    if r > 0 {
      RoundStarts(n, max, r - 1);
      WalkOn(n, max, Cursor(0, 1), Steps(r - 1, n), n);
      RoundPosition(n, max, Needed(max, r - 1), n);
    }
  }

  lemma {:induction false} RoundsPick(ws: seq<nat>, max: nat, r: nat, u: nat)
    requires r <= max && u < |ws| && ws[u] <= max
    ensures Count(Picked(ws, max, Cursor(0, 1), Steps(r, |ws|)), u) == if ws[u] > max - r then ws[u] - (max - r) else 0
  {
    if r > 0 {
      var n := |ws|;
      RoundsPick(ws, max, r - 1, u);
      RoundStarts(n, max, r - 1);
      PickedOn(ws, max, Cursor(0, 1), Steps(r - 1, n), n);
      RoundPicks(ws, max, Needed(max, r - 1), n, u);
      CountOn(Picked(ws, max, Cursor(0, 1), Steps(r - 1, n)), Picked(ws, max, Cursor(0, Needed(max, r - 1)), n), u);
    }
  }

  /** A cursor is reached from the start of a cycle. */
  lemma Reached(n: nat, max: nat, c: Cursor) returns (k: nat)
    requires n > 0 && max > 0 && Ready(n, max, c) && c.cw > 0
    ensures Walk(n, max, Cursor(0, 1), k) == c
  {
    if c.i == 0 {
      RoundStarts(n, max, max - c.cw + 1);
      k := Steps(max - c.cw + 1, n);
    } else {
      var r := max - c.cw;
      RoundStarts(n, max, r);
      RoundPosition(n, max, Needed(max, r), c.i);
      WalkOn(n, max, Cursor(0, 1), Steps(r, n), c.i);
      k := Steps(r, n) + c.i;
    }
  }

  /** After `max` rounds the walk is where it was. */
  lemma Periodic(n: nat, max: nat, c: Cursor)
    requires n > 0 && max > 0 && Ready(n, max, c) && c.cw > 0
    ensures Walk(n, max, c, Steps(max, n)) == c
  {
    var k := Reached(n, max, c);
    RoundStarts(n, max, max);
    WalkOn(n, max, Cursor(0, 1), k, Steps(max, n));
    WalkOn(n, max, Cursor(0, 1), Steps(max, n), k);
  }

  lemma {:induction false} Stays(n: nat, max: nat, c: Cursor, k: nat)
    requires n > 0 && max > 0 && Ready(n, max, c)
    ensures Ready(n, max, Walk(n, max, c, k))
    ensures k > 0 || c.cw > 0 ==> Walk(n, max, c, k).cw > 0
  {
    if k > 0 { Stays(n, max, c, k - 1); }
  }

  /** A cycle that starts one step later picks as often. */
  lemma CycleShifts(ws: seq<nat>, max: nat, c: Cursor, u: nat)
    requires |ws| > 0 && max > 0 && Ready(|ws|, max, c) && c.cw > 0
    ensures var d, p := Step(|ws|, max, c), Steps(max, |ws|);
      Count(Picked(ws, max, d, p), u) == Count(Picked(ws, max, c, p), u)
  {
    var n, p := |ws|, Steps(max, |ws|);
    Periodic(n, max, c);
    assert Walk(n, max, c, 0) == c;
    assert Walk(n, max, c, 1) == Step(n, max, c);
    PickedOn(ws, max, c, 1, p);
    PickedOn(ws, max, c, p, 1);
    CountOn(Picked(ws, max, c, 1), Picked(ws, max, Step(n, max, c), p), u);
    CountOn(Picked(ws, max, c, p), Picked(ws, max, c, 1), u);
  }

  /** A cycle from any cursor picks every unit as often as its weight says. */
  lemma {:induction false} CyclePicks(ws: seq<nat>, max: nat, k: nat, u: nat)
    requires max > 0 && u < |ws| && ws[u] <= max
    ensures Walk(|ws|, max, Cursor(0, 1), k).i < |ws|
    ensures Count(Picked(ws, max, Walk(|ws|, max, Cursor(0, 1), k), Steps(max, |ws|)), u) == ws[u]
  {
    var n, start := |ws|, Cursor(0, 1);
    WalkIndex(n, max, start, k);
    if k == 0 {
      RoundsPick(ws, max, max, u);
    } else {
      CyclePicks(ws, max, k - 1, u);
      Stays(n, max, start, k - 1);
      CycleShifts(ws, max, Walk(n, max, start, k - 1), u);
    }
  }

  /** A cursor that has not moved yet walks as one at the end of a cycle. */
  lemma {:induction false} FreshWalks(ws: seq<nat>, max: nat, k: nat)
    requires |ws| > 0
    ensures k > 0 ==> Walk(|ws|, max, Cursor(0, 0), k) == Walk(|ws|, max, Cursor(0, 1), k)
    ensures Picked(ws, max, Cursor(0, 0), k) == Picked(ws, max, Cursor(0, 1), k)
  {
    if k > 0 { FreshWalks(ws, max, k - 1); }
  }

  lemma AnyCyclePicks(ws: seq<nat>, max: nat, c: Cursor, u: nat)
    requires max > 0 && u < |ws| && ws[u] <= max && Ready(|ws|, max, c)
    ensures Count(Picked(ws, max, c, Steps(max, |ws|)), u) == ws[u]
  {
    if c.cw == 0 {
      FreshWalks(ws, max, Steps(max, |ws|));
      CyclePicks(ws, max, 0, u);
    } else {
      var k := Reached(|ws|, max, c);
      CyclePicks(ws, max, k, u);
    }
  }

  // ----- calls: walk on to the first unit that is picked

  /** The walk from `c` first picks a unit after `k` steps. */
  ghost predicate FirstPick(ws: seq<nat>, max: nat, c: Cursor, k: nat)
    requires |ws| > 0
  {
    && 0 < k && PicksAfter(ws, max, c, k)
    && forall j {:trigger PicksAfter(ws, max, c, j)} :: 0 < j < k ==> !PicksAfter(ws, max, c, j)
  }

  predicate PicksAfter(ws: seq<nat>, max: nat, c: Cursor, k: nat)
    requires |ws| > 0 && k > 0
  {
    WalkIndex(|ws|, max, c, k);
    Picks(ws, Walk(|ws|, max, c, k))
  }

  lemma {:induction false} WalkVisits(n: nat, max: nat, c: Cursor, k: nat)
    requires c.i < n && k <= n
    ensures Walk(n, max, c, k).i == if c.i + k < n then c.i + k else c.i + k - n
  {
    if k > 0 {
      WalkVisits(n, max, c, k - 1);
      NextIndex(Walk(n, max, c, k - 1).i, n);
    }
  }

  ghost predicate EndsInARound(ws: seq<nat>, max: nat, c: Cursor)
    requires |ws| > 0
  {
    exists k: nat :: k <= |ws| && FirstPick(ws, max, c, k)
  }

  ghost predicate EveryCallEnds(ws: seq<nat>, max: nat) {
    |ws| > 0 && forall c :: Ready(|ws|, max, c) ==> EndsInARound(ws, max, c)
  }

  /** Some unit is picked within a round: at the latest one that is as heavy as any round needs. */
  lemma PicksWithinARound(ws: seq<nat>, max: nat, c: Cursor)
    requires Balanced(ws, max) && Ready(|ws|, max, c)
    ensures EndsInARound(ws, max, c)
  {
    var k := PickInReach(ws, max, c);
    k := LeastPick(ws, max, c, k);
  }

  lemma PickInReach(ws: seq<nat>, max: nat, c: Cursor) returns (k: nat)
    requires Balanced(ws, max) && Ready(|ws|, max, c)
    ensures 0 < k <= |ws| && PicksAfter(ws, max, c, k)
  {
    var u :| 0 <= u < |ws| && ws[u] == max;
    k := if u > c.i then u - c.i else u + |ws| - c.i;
    WalkVisits(|ws|, max, c, k);
    Stays(|ws|, max, c, k);
  }

  lemma LeastPick(ws: seq<nat>, max: nat, c: Cursor, k: nat) returns (least: nat)
    requires |ws| > 0 && 0 < k && PicksAfter(ws, max, c, k)
    ensures least <= k && FirstPick(ws, max, c, least)
  {
    least := 1;
    while !PicksAfter(ws, max, c, least)
      invariant 0 < least <= k
      invariant forall j {:trigger PicksAfter(ws, max, c, j)} :: 0 < j < least ==> !PicksAfter(ws, max, c, j)
      decreases k - least
    {
      least := least + 1;
    }
  }

  /** How many steps a call takes. */
  ghost function CallSteps(ws: seq<nat>, max: nat, c: Cursor): (k: nat)
    requires Balanced(ws, max) && Ready(|ws|, max, c)
    ensures k <= |ws| && FirstPick(ws, max, c, k)
  {
    PicksWithinARound(ws, max, c);
    var k: nat :| k <= |ws| && FirstPick(ws, max, c, k);
    k
  }

  /** The cursor after `m` calls. */
  ghost function After(ws: seq<nat>, max: nat, c: Cursor, m: nat): (d: Cursor)
    requires Balanced(ws, max) && Ready(|ws|, max, c)
    ensures Ready(|ws|, max, d)
  {
    if m == 0 then c
    else
      var b := After(ws, max, c, m - 1);
      Stays(|ws|, max, b, CallSteps(ws, max, b));
      Walk(|ws|, max, b, CallSteps(ws, max, b))
  }

  /** The units that `m` calls return. */
  ghost function Calls(ws: seq<nat>, max: nat, c: Cursor, m: nat): (p: seq<nat>)
    requires Balanced(ws, max) && Ready(|ws|, max, c)
    ensures |p| == m
  {
    if m == 0 then [] else Calls(ws, max, c, m - 1) + [After(ws, max, c, m).i]
  }

  function Sum(ws: seq<nat>): nat { if ws == [] then 0 else Sum(ws[..|ws|-1]) + ws[|ws|-1] }

  lemma {:induction false} PickedNone(ws: seq<nat>, max: nat, c: Cursor, k: nat)
    requires |ws| > 0 && c.i < |ws|
    requires forall j {:trigger PicksAfter(ws, max, c, j)} :: 0 < j <= k ==> !PicksAfter(ws, max, c, j)
    ensures Picked(ws, max, c, k) == []
  {
    if k > 0 {
      PickedNone(ws, max, c, k - 1);
      assert !PicksAfter(ws, max, c, k);
    }
  }

  /** A run of calls is a walk, cut off after a pick. */
  lemma {:induction false} CallsWalk(ws: seq<nat>, max: nat, c: Cursor, m: nat) returns (k: nat)
    requires Balanced(ws, max) && Ready(|ws|, max, c)
    ensures After(ws, max, c, m) == Walk(|ws|, max, c, k) && Calls(ws, max, c, m) == Picked(ws, max, c, k)
  {
    k := 0;
    if m > 0 {
      var j := CallsWalk(ws, max, c, m - 1);
      var b := After(ws, max, c, m - 1);
      var s := CallSteps(ws, max, b);
      WalkOn(|ws|, max, c, j, s);
      PickedOn(ws, max, c, j, s);
      PickedNone(ws, max, b, s - 1);
      assert PicksAfter(ws, max, b, s);
      k := j + s;
    }
  }

  /** The counts of the first `n` units. */
  function Counts(p: seq<nat>, n: nat): (r: seq<nat>)
    ensures |r| == n && forall u :: 0 <= u < n ==> r[u] == Count(p, u)
  {
    seq(n, u requires u >= 0 => Count(p, u))
  }

  lemma {:induction false} SumRaised(r: seq<nat>, x: nat)
    requires x < |r|
    ensures Sum(r[x := r[x] + 1]) == Sum(r) + 1
  {
    var q := r[x := r[x] + 1];
    if x == |r| - 1 {
      assert q[..|q|-1] == r[..|r|-1];
    } else {
      assert q[..|q|-1] == r[..|r|-1][x := r[x] + 1];
      SumRaised(r[..|r|-1], x);
    }
  }

  lemma {:induction false} SumZero(r: seq<nat>)
    requires forall u :: 0 <= u < |r| ==> r[u] == 0
    ensures Sum(r) == 0
  {
    if r != [] { SumZero(r[..|r|-1]); }
  }

  /** The counts of all units add up to the length. */
  lemma {:induction false} CountsAddUp(p: seq<nat>, n: nat)
    requires forall x :: x in p ==> x < n
    ensures Sum(Counts(p, n)) == |p|
  {
    if p == [] {
      SumZero(Counts(p, n));
    } else {
      var q, x := p[..|p|-1], p[|p|-1];
      forall y | y in q ensures y < n { assert y in p; }
      CountsAddUp(q, n);
      assert x in p;
      assert Counts(p, n) == Counts(q, n)[x := Counts(q, n)[x] + 1];
      SumRaised(Counts(q, n), x);
    }
  }

  lemma SameLengthSamePicks(ws: seq<nat>, max: nat, c: Cursor, j: nat, k: nat)
    requires |ws| > 0 && c.i < |ws| && |Picked(ws, max, c, j)| == |Picked(ws, max, c, k)|
    ensures Picked(ws, max, c, j) == Picked(ws, max, c, k)
  {
    if j <= k { PickedOn(ws, max, c, j, k - j); } else { PickedOn(ws, max, c, k, j - k); }
  }

  /** As many calls as the weights add up to return every unit as often as its weight says. */
  lemma CallsAreFair(ws: seq<nat>, max: nat, c: Cursor, u: nat)
    requires Balanced(ws, max) && Ready(|ws|, max, c) && u < |ws|
    ensures Count(Calls(ws, max, c, Sum(ws)), u) == ws[u]
  {
    var p := Steps(max, |ws|);
    var cycle := Picked(ws, max, c, p);
    forall v: nat | v < |ws| ensures Count(cycle, v) == ws[v] { AnyCyclePicks(ws, max, c, v); }
    CountsAddUp(cycle, |ws|);
    assert Counts(cycle, |ws|) == ws;
    var k := CallsWalk(ws, max, c, Sum(ws));
    SameLengthSamePicks(ws, max, c, k, p);
  }

  lemma {:induction false} CallsOn(ws: seq<nat>, max: nat, c: Cursor, j: nat, m: nat)
    requires Balanced(ws, max) && Ready(|ws|, max, c)
    ensures After(ws, max, After(ws, max, c, j), m) == After(ws, max, c, j + m)
    ensures Calls(ws, max, c, j + m) == Calls(ws, max, c, j) + Calls(ws, max, After(ws, max, c, j), m)
  {
    if m > 0 { CallsOn(ws, max, c, j, m - 1); }
  }

  lemma OneMoreCall(ws: seq<nat>, max: nat, c: Cursor, m: nat)
    requires Balanced(ws, max) && Ready(|ws|, max, c)
    ensures After(ws, max, After(ws, max, c, m), 1) == After(ws, max, c, m + 1)
    ensures Calls(ws, max, c, m + 1) == Calls(ws, max, c, m) + [After(ws, max, c, m + 1).i]
  {
    CallsOn(ws, max, c, m, 1);
  }

  /**
   Exact fairness: wherever a run starts, any `Sum(ws)` consecutive calls of it return every unit
   exactly as often as its weight says.
   */
  lemma EveryWindowIsFair(ws: seq<nat>, max: nat, c: Cursor, j: nat, u: nat)
    requires Balanced(ws, max) && Ready(|ws|, max, c) && u < |ws|
    ensures Count(Calls(ws, max, c, j + Sum(ws))[j..], u) == ws[u]
  {
    CallsOn(ws, max, c, j, Sum(ws));
    CallsAreFair(ws, max, After(ws, max, c, j), u);
    assert Calls(ws, max, c, j + Sum(ws))[j..] == Calls(ws, max, After(ws, max, c, j), Sum(ws));
  }

  /**
   Where no unit is heavier than `max`, every walk picks a unit within a round exactly if one is
   as heavy as that: otherwise a whole round passes all units over, from the very first call on.
   */
  lemma WithinARoundIffBalanced(ws: seq<nat>, max: nat)
    requires |ws| > 0 && max > 0 && forall u :: 0 <= u < |ws| ==> ws[u] <= max
    ensures Balanced(ws, max) <==> EveryCallEnds(ws, max)
    ensures Balanced(ws, max) <==> EndsInARound(ws, max, Cursor(0, 0))
  {
    assert Ready(|ws|, max, Cursor(0, 0));
    if Balanced(ws, max) {
      forall c | Ready(|ws|, max, c) ensures EndsInARound(ws, max, c) {
        PicksWithinARound(ws, max, c);
      }
    } else {
      forall k: nat | k <= |ws| ensures !FirstPick(ws, max, Cursor(0, 0), k) {
        if k > 0 {
          RoundPosition(|ws|, max, 0, k);
          assert !PicksAfter(ws, max, Cursor(0, 0), k);
        }
      }
    }
  }

  // ----- calls that probe whether a unit is available

  /** The unit after `k` steps is available when it is probed, and heavy enough. */
  predicate Taken(ws: seq<nat>, max: nat, c: Cursor, probes: seq<bool>, k: nat)
    requires |ws| > 0 && 0 < k <= |probes|
  {
    probes[k-1] && PicksAfter(ws, max, c, k)
  }

  /** The last available unit within `k` steps. */
  function LastUp(n: nat, max: nat, c: Cursor, probes: seq<bool>, k: nat): (u: int)
    requires n > 0 && k <= |probes|
    ensures u < n
  {
    if k == 0 then -1
    else if probes[k-1] then (WalkIndex(n, max, c, k); Walk(n, max, c, k).i)
    else LastUp(n, max, c, probes, k - 1)
  }

  /** There is none exactly if no probe has found one; else it is the one whose probe no other such probe follows. */
  lemma {:induction false} LastUpMeans(n: nat, max: nat, c: Cursor, probes: seq<bool>, k: nat)
    requires n > 0 && k <= |probes|
    ensures LastUp(n, max, c, probes, k) < 0 <==> forall j :: 0 <= j < k ==> !probes[j]
    ensures forall j: nat :: 0 < j <= k && probes[j-1] && (forall m :: j <= m < k ==> !probes[m]) ==>
              LastUp(n, max, c, probes, k) == Walk(n, max, c, j).i
  {
    if k > 0 {
      WalkIndex(n, max, c, k);
      if !probes[k-1] { LastUpMeans(n, max, c, probes, k - 1); }
    }
  }

  /** A call takes `k` steps: to the first unit taken, or, if none is, two rounds. */
  ghost predicate Called(ws: seq<nat>, max: nat, c: Cursor, probes: seq<bool>, k: nat)
    requires |ws| > 0 && |probes| == 2 * |ws|
  {
    && 0 < k <= 2 * |ws| && (k == 2 * |ws| || Taken(ws, max, c, probes, k))
    && forall j :: 0 < j < k ==> !Taken(ws, max, c, probes, j)
  }

  /** A unit that is not available is as good as one without weight. */
  function Usable(ws: seq<nat>, up: seq<bool>): (r: seq<nat>)
    requires |up| == |ws|
    ensures |r| == |ws| && forall u :: 0 <= u < |ws| ==> r[u] == if up[u] then ws[u] else 0
  {
    seq(|ws|, u requires 0 <= u < |ws| => if up[u] then ws[u] else 0)
  }

  /** The probes answer by unit, always the same. */
  ghost predicate Steady(n: nat, max: nat, c: Cursor, probes: seq<bool>, up: seq<bool>)
    requires n > 0 && |up| == n
  {
    forall k: nat {:trigger Walk(n, max, c, k)} :: 0 < k <= |probes| ==>
      Walk(n, max, c, k).i < n && probes[k-1] == up[Walk(n, max, c, k).i]
  }

  /**
   As long as the same units are available, and one as heavy as any round needs, a call that
   makes at most two rounds ends within one, at the unit that the walk over the usable weights
   picks next.
   */
  lemma SteadyCall(ws: seq<nat>, max: nat, c: Cursor, probes: seq<bool>, up: seq<bool>, k: nat)
    requires |ws| > 0 && |up| == |ws| && |probes| == 2 * |ws| && Steady(|ws|, max, c, probes, up)
    requires Balanced(Usable(ws, up), max) && Ready(|ws|, max, c)
    requires Called(ws, max, c, probes, k)
    ensures 0 < k <= |ws| && Taken(ws, max, c, probes, k)
    ensures Walk(|ws|, max, c, k) == After(Usable(ws, up), max, c, 1)
  {
    var us := Usable(ws, up);
    var s := CallSteps(us, max, c);
    assert PicksAfter(us, max, c, s);
    SteadyTaken(ws, max, c, probes, up, s);
    SteadyTaken(ws, max, c, probes, up, k);
    assert k == s;
    assert After(us, max, c, 0) == c;
  }

  lemma SteadyTaken(ws: seq<nat>, max: nat, c: Cursor, probes: seq<bool>, up: seq<bool>, k: nat)
    requires |ws| > 0 && |up| == |ws| && Steady(|ws|, max, c, probes, up) && max > 0 && Ready(|ws|, max, c)
    ensures 0 < k <= |probes| ==> (Taken(ws, max, c, probes, k) <==> PicksAfter(Usable(ws, up), max, c, k))
  {
    if 0 < k <= |probes| {
      Stays(|ws|, max, c, k);
      assert Walk(|ws|, max, c, k).i < |ws|;
    }
  }

  // ----- a cursor from before an edit

  /** The walk to index 0 keeps the weight of the round. */
  lemma {:induction false} RestOfRound(n: nat, max: nat, c: Cursor, k: nat)
    requires 0 < c.i < n && k <= n - c.i
    ensures Walk(n, max, c, k) == Cursor(if c.i + k == n then 0 else c.i + k, c.cw)
  {
    if k > 0 {
      RestOfRound(n, max, c, k - 1);
      NextIndex(c.i + k - 1, n);
    }
  }

  lemma ReachesZero(n: nat, max: nat, c: Cursor) returns (k: nat)
    requires n > 0
    ensures k <= n && Walk(n, max, c, k) == Cursor(0, c.cw)
  {
    if c.i == 0 {
      k := 0;
    } else if c.i < n {
      k := n - c.i;
      RestOfRound(n, max, c, k);
    } else {
      var d := Step(n, max, c);
      assert Walk(n, max, c, 0) == c;
      assert Walk(n, max, c, 1) == d;
      if d.i == 0 {
        k := 1;
      } else {
        RestOfRound(n, max, d, n - d.i);
        WalkOn(n, max, c, 1, n - d.i);
        k := 1 + n - d.i;
      }
    }
  }

  lemma {:induction false} RoundsDown(n: nat, max: nat, cw: nat) returns (k: nat)
    requires n > 0
    ensures k <= Steps(cw, n) && exists w: nat :: w <= max && Walk(n, max, Cursor(0, cw), k) == Cursor(0, w)
  {
    if cw <= max {
      k := 0;
      assert Walk(n, max, Cursor(0, cw), 0) == Cursor(0, cw);
    } else {
      RoundPosition(n, max, cw, n);
      if cw == 1 {
        k := n;
        assert Steps(0, n) == 0;
      } else {
        var j := RoundsDown(n, max, cw - 1);
        WalkOn(n, max, Cursor(0, cw), n, j);
        k := n + j;
      }
    }
  }

  /** Whatever the cursor was when the units were edited, after enough steps it is ready, and stays so. */
  lemma EventuallyReady(n: nat, max: nat, c: Cursor, k: nat)
    requires n > 0 && max > 0 && k >= n + Steps(c.cw, n)
    ensures Ready(n, max, Walk(n, max, c, k))
  {
    var a := ReachesZero(n, max, c);
    var b := RoundsDown(n, max, c.cw);
    WalkOn(n, max, c, a, b);
    var d := Walk(n, max, c, a + b);
    Stays(n, max, d, k - (a + b));
    WalkOn(n, max, c, a + b, k - (a + b));
  }
}
