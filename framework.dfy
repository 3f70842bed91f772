/** The agent rules of the predator-prey model (framework.py): the record every
    sheep and wolf is, its construction, the edge-forced random walk, the two
    distance tests, the wolf's prey search and the specification of a sheep
    sharing its store with its neighbours.

    Randomness is a parameter: a coin per axis for a move (`true` where the
    source draws `random.random() < 0.5`) and a draw in [0, 100] where the
    source calls `random.randint(0, 100)`. */
module Framework {

  datatype Option<T> = None | Some(value: T)

  /** A sheep or a wolf: its position and its store (food for a sheep, the
      kill count for a wolf). */
  datatype Agent = Agent(x: int, y: int, store: real)

  /** Where any move leaves an agent: the walk wraps with `% 100`, so both
      coordinates end up in [0, 99]. */
  predicate OnBoard(a: Agent)
  {
    0 <= a.x < 100 && 0 <= a.y < 100
  }

  /** Where a randomly placed agent starts: `randint(0, 100)` includes 100. */
  predicate InDomain(a: Agent)
  {
    0 <= a.x <= 100 && 0 <= a.y <= 100
  }

  predicate SamePlace(a: Agent, b: Agent)
  {
    a.x == b.x && a.y == b.y
  }

  predicate StoresNonNegative(s: seq<Agent>)
  {
    forall k :: 0 <= k < |s| ==> s[k].store >= 0.0
  }

  /** Agent.__init__: a coordinate given as `None` is drawn (`randX`, `randY`
      stand for the two `randint(0, 100)` results, x drawn first, unused when
      the coordinate is given); the store starts at zero. */
  function NewAgent(y: Option<int>, x: Option<int>, randX: int, randY: int): (a: Agent)
    requires 0 <= randX <= 100 && 0 <= randY <= 100
    ensures a.store == 0.0
    ensures x.Some? ==> a.x == x.value
    ensures y.Some? ==> a.y == y.value
    ensures x.None? ==> a.x == randX && 0 <= a.x <= 100
    ensures y.None? ==> a.y == randY && 0 <= a.y <= 100
  {
    Agent(if x.Some? then x.value else randX, if y.Some? then y.value else randY, 0.0)
  }

  /** The two coins of one move: `upY` and `upX` are `random.random() < 0.5`. */
  datatype Coins = Coins(upY: bool, upX: bool)

  /** One axis of an ordinary step: up or down by one, wrapping with `% 100`. */
  function Step(v: int, up: bool): int
  {
    (if up then v + 1 else v - 1) % 100
  }

  /** Where Agent.move takes an agent, axis by axis: y is forced inward at 0
      and 100 without a coin, otherwise it steps by its coin; x at 0 or 100
      always lands on 1 (the source tests the already-moved y, which is never
      100), otherwise it steps by its own coin; the store is untouched. Every
      start, however far outside the board, ends on it. */
  function Walk(a: Agent, c: Coins): (b: Agent)
    ensures OnBoard(b)
    ensures b.store == a.store
  {
    Agent(if a.x == 0 || a.x == 100 then 1 else Step(a.x, c.upX),
          if a.y == 100 then 99 else if a.y == 0 then 1 else Step(a.y, c.upY),
          a.store)
  }

  /** Agent.move: y first, then x, each reassigned in place. */
  method Move(a: Agent, c: Coins) returns (b: Agent)
    ensures b == Walk(a, c)
  {
    var x, y := a.x, a.y;
    if y == 100 || y == 0 {
      if y == 100 {
        y := (y - 1) % 100;
      } else {
        y := (y + 1) % 100;
      }
    } else {
      if c.upY {
        y := (y + 1) % 100;
      } else {
        y := (y - 1) % 100;
      }
    }
    if x == 100 || x == 0 {
      // The test is on the moved y, which is never 100, so x always steps up.
      x := (if y == 100 then x - 1 else x + 1) % 100;
    } else {
      if c.upX {
        x := (x + 1) % 100;
      } else {
        x := (x - 1) % 100;
      }
    }
    b := Agent(x, y, a.store);
  }

  /** Sheep.distance_between, squared: the source compares its square root with
      the (non-negative integer) neighbourhood, which on integer coordinates is
      the same test as comparing the square with the neighbourhood squared. */
  function SheepDistanceSq(a: Agent, b: Agent): (d: int)
    ensures d >= 0
    ensures d == 0 <==> SamePlace(a, b)
  {
    (a.x - b.x) * (a.x - b.x) + (a.y - b.y) * (a.y - b.y)
  }

  /** Wolf.distance_between, squared: the distance from the wolf `w` to the
      point (x, y). Its `other` argument is accepted and ignored, as in the
      source. */
  function WolfDistanceSq(w: Agent, other: Agent, x: int, y: int): (d: int)
    ensures d >= 0
    ensures d == 0 <==> w.x == x && w.y == y
  {
    (w.x - x) * (w.x - x) + (w.y - y) * (w.y - y)
  }

  /** The wolf's strike test `dist <= 2 ** 0.5`, squared. */
  predicate InStrike(w: Agent, s: Agent)
  {
    WolfDistanceSq(w, w, s.x, s.y) <= 2
  }

  /** Strike range is exactly the wolf's own cell and its eight neighbours. */
  lemma StrikeIsAdjacency(w: Agent, s: Agent)
    ensures InStrike(w, s) <==> -1 <= w.x - s.x <= 1 && -1 <= w.y - s.y <= 1
  {
    var dx, dy := w.x - s.x, w.y - s.y;
    assert WolfDistanceSq(w, w, s.x, s.y) == dx * dx + dy * dy;
    SquareBelowTwo(dx);
    SquareBelowTwo(dy);
  }

  /** An integer whose square is at most 2 lies in [-1, 1], and back. */
  lemma SquareBelowTwo(d: int)
    ensures -1 <= d <= 1 <==> d * d <= 1
    ensures d * d <= 2 <==> d * d <= 1
  {
    if d >= 2 {
      assert d * d >= 2 * d;
    } else if d <= -2 {
      assert d * d >= -2 * d;
    }
  }

  /** Wolf.eat's search: the outer loop runs over the sheep, the inner loop over
      the wolf's own pack, and each inner step measures the wolf against the
      current sheep (the pack member is ignored). With an empty pack no sheep is
      ever found; otherwise the result is the lowest index within strike range,
      or `None` when no sheep is. */
  method FirstInStrike(w: Agent, sheep: seq<Agent>, pack: seq<Agent>) returns (prey: Option<nat>)
    ensures prey.Some? ==> && pack != []
                           && prey.value < |sheep|
                           && InStrike(w, sheep[prey.value])
                           && forall k :: 0 <= k < prey.value ==> !InStrike(w, sheep[k])
    ensures prey.None? ==> pack == [] || forall k :: 0 <= k < |sheep| ==> !InStrike(w, sheep[k])
  {
    var i := 0;
    while i < |sheep|
      invariant 0 <= i <= |sheep|
      invariant pack != [] ==> forall k :: 0 <= k < i ==> !InStrike(w, sheep[k])
    {
      var x, y := sheep[i].x, sheep[i].y;
      var t := 0;
      while t < |pack|
        invariant 0 <= t <= |pack|
        invariant t > 0 ==> !InStrike(w, sheep[i])
      {
        var dist := WolfDistanceSq(w, pack[t], x, y);
        if dist <= 2 {
          return Some(i);
        }
        t := t + 1;
      }
      i := i + 1;
    }
    return None;
  }

  /** Sum of the stores of a list of agents. */
  function TotalStore(s: seq<Agent>): real
  {
    if s == [] then 0.0 else TotalStore(s[..|s| - 1]) + s[|s| - 1].store
  }

  lemma {:induction false} TotalStoreUpdate(s: seq<Agent>, k: nat, a: Agent)
    requires k < |s|
    ensures TotalStore(s[k := a]) == TotalStore(s) - s[k].store + a.store
  {
    var n := |s| - 1;
    if k == n {
      assert s[k := a][..n] == s[..n];
    } else {
      assert s[k := a][..n] == s[..n][k := a];
      TotalStoreUpdate(s[..n], k, a);
    }
  }

  /** One step of Sheep.share_with_neighbours run by sheep `i`: the pair (i, k)
      averages its two stores when k is within the neighbourhood `n` of i. */
  function ShareStep(s: seq<Agent>, i: nat, k: nat, n: nat): (r: seq<Agent>)
    requires i < |s| && k < |s|
    ensures |r| == |s|
    ensures forall m :: 0 <= m < |s| ==> SamePlace(r[m], s[m])
    ensures forall m :: 0 <= m < |s| && m != i && m != k ==> r[m] == s[m]
    ensures k == i ==> r == s
  {
    if SheepDistanceSq(s[i], s[k]) <= n * n then
      var ave := (s[i].store + s[k].store) / 2.0;
      s[i := s[i].(store := ave)][k := s[k].(store := ave)]
    else
      s
  }

  /** The flock after sheep `i` has shared with the first `k` members of the
      list, in list order, each step seeing the stores the earlier ones left. */
  function Shared(s: seq<Agent>, i: nat, n: nat, k: nat): (r: seq<Agent>)
    requires i < |s| && k <= |s|
    ensures |r| == |s|
    ensures forall m :: 0 <= m < |s| ==> SamePlace(r[m], s[m])
    decreases k
  {
    if k == 0 then s else ShareStep(Shared(s, i, n, k - 1), i, k - 1, n)
  }

  /** An averaged pair ends the step with equal stores, each the mean of the two. */
  lemma ShareStepAverages(s: seq<Agent>, i: nat, k: nat, n: nat)
    requires i < |s| && k < |s|
    requires SheepDistanceSq(s[i], s[k]) <= n * n
    ensures ShareStep(s, i, k, n)[i].store == ShareStep(s, i, k, n)[k].store
                                           == (s[i].store + s[k].store) / 2.0
  {
  }

  /** A sheep out of the neighbourhood is left alone by the step. */
  lemma ShareStepSkipsFar(s: seq<Agent>, i: nat, k: nat, n: nat)
    requires i < |s| && k < |s|
    requires SheepDistanceSq(s[i], s[k]) > n * n
    ensures ShareStep(s, i, k, n) == s
  {
  }

  /** Giving two distinct sheep the mean of their stores keeps the total. */
  lemma PairAverageConserves(s: seq<Agent>, i: nat, k: nat, ave: real, r: seq<Agent>)
    requires i < |s| && k < |s| && i != k
    requires 2.0 * ave == s[i].store + s[k].store
    requires r == s[i := s[i].(store := ave)][k := s[k].(store := ave)]
    ensures TotalStore(r) == TotalStore(s)
  {
    var s1 := s[i := s[i].(store := ave)];
    TotalStoreUpdate(s, i, s[i].(store := ave));
    TotalStoreUpdate(s1, k, s[k].(store := ave));
  }

  /** Averaging conserves the flock's total store. */
  lemma ShareStepConserves(s: seq<Agent>, i: nat, k: nat, n: nat)
    requires i < |s| && k < |s|
    ensures TotalStore(ShareStep(s, i, k, n)) == TotalStore(s)
  {
    if SheepDistanceSq(s[i], s[k]) <= n * n && k != i {
      NearStepConserves(s, i, k, n);
    } else {
      assert ShareStep(s, i, k, n) == s;
    }
  }

  lemma NearStepConserves(s: seq<Agent>, i: nat, k: nat, n: nat)
    requires i < |s| && k < |s| && k != i
    requires SheepDistanceSq(s[i], s[k]) <= n * n
    ensures TotalStore(ShareStep(s, i, k, n)) == TotalStore(s)
  {
    var ave := (s[i].store + s[k].store) / 2.0;
    PairAverageConserves(s, i, k, ave, ShareStep(s, i, k, n));
  }

  lemma ShareStepKeepsNonNegative(s: seq<Agent>, i: nat, k: nat, n: nat)
    requires i < |s| && k < |s|
    requires StoresNonNegative(s)
    ensures StoresNonNegative(ShareStep(s, i, k, n))
  {
  }

  /** Sharing with the whole flock conserves the total store. */
  lemma {:induction false} SharedConserves(s: seq<Agent>, i: nat, n: nat, k: nat)
    requires i < |s| && k <= |s|
    ensures TotalStore(Shared(s, i, n, k)) == TotalStore(s)
  {
    if k > 0 {
      SharedConserves(s, i, n, k - 1);
      ShareStepConserves(Shared(s, i, n, k - 1), i, k - 1, n);
    }
  }

  /** Sharing keeps every store non-negative. */
  lemma {:induction false} SharedKeepsNonNegative(s: seq<Agent>, i: nat, n: nat, k: nat)
    requires i < |s| && k <= |s|
    requires StoresNonNegative(s)
    ensures StoresNonNegative(Shared(s, i, n, k))
  {
    if k > 0 {
      SharedKeepsNonNegative(s, i, n, k - 1);
      ShareStepKeepsNonNegative(Shared(s, i, n, k - 1), i, k - 1, n);
    }
  }

  /** Two sheep on one cell with stores 10 and 30 and a neighbourhood of 5:
      once the first has shared, both hold 20. */
  lemma ShareSameCellExample()
    ensures Shared([Agent(5, 5, 10.0), Agent(5, 5, 30.0)], 0, 5, 2)
            == [Agent(5, 5, 20.0), Agent(5, 5, 20.0)]
  {
    var s := [Agent(5, 5, 10.0), Agent(5, 5, 30.0)];
    assert Shared(s, 0, 5, 1) == s;
  }

  /** A sheep farther than the neighbourhood from sheep `i` keeps its store:
      positions never change while sharing, so no step pairs it with `i`. */
  lemma {:induction false} SharedLeavesFar(s: seq<Agent>, i: nat, n: nat, k: nat, m: nat)
    requires i < |s| && k <= |s| && m < |s| && m != i
    requires SheepDistanceSq(s[i], s[m]) > n * n
    ensures Shared(s, i, n, k)[m] == s[m]
  {
    if k > 0 {
      SharedLeavesFar(s, i, n, k - 1, m);
      var p := Shared(s, i, n, k - 1);
      assert SamePlace(p[i], s[i]) && SamePlace(p[m], s[m]);
      if k - 1 == m {
        ShareStepSkipsFar(p, i, m, n);
      }
    }
  }
}
