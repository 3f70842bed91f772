/** The simulation state and one tick of it (maincode.py `update`, without the
    plotting), with the framework.py operations that change shared state bound
    to it. In the source every agent holds the list it belongs to and the
    environment; here the `World` owns the grid and both lists, and an agent
    operation takes the agent's index. */
module Simulation {

  import opened Framework
  import opened Removal

  /** Draws for Python's `random.shuffle`, which walks i from the last index
      down to 1 and swaps element i with element `randbelow(i + 1)`;
      `draws[i]` stands for that draw (`draws[0]` is unused). */
  predicate ShuffleDraws(draws: seq<nat>, n: nat)
  {
    |draws| == n && forall i :: 0 <= i < n ==> draws[i] <= i
  }

  /** The swaps `random.shuffle` makes for the indices i - 1 down to 1, in that
      order; `Swaps(s, draws, |s|)` is the shuffled list. Swapping only
      reorders, so the agents are the same. */
  function Swaps<T>(s: seq<T>, draws: seq<nat>, i: nat): (r: seq<T>)
    requires ShuffleDraws(draws, |s|) && i <= |s|
    ensures |r| == |s|
    ensures multiset(r) == multiset(s)
    decreases i
  {
    if i <= 1 then
      s
    else
      var k := i - 1;
      Swaps(s[k := s[draws[k]]][draws[k] := s[k]], draws, k)
  }

  /** `random.shuffle`: reorders the list in place by swaps. */
  method Shuffle<T>(s: seq<T>, draws: seq<nat>) returns (r: seq<T>)
    requires ShuffleDraws(draws, |s|)
    ensures r == Swaps(s, draws, |s|)
    ensures multiset(r) == multiset(s)
  {
    r := s;
    var i := |s| - 1;
    while i > 0
      invariant -1 <= i < |s|
      invariant |r| == |s|
      invariant Swaps(r, draws, i + 1) == Swaps(s, draws, |s|)
    {
      var j := draws[i];
      r := r[i := r[j]][j := r[i]];
      i := i - 1;
    }
  }

  /** set_wolves: `n` wolves placed by `randint(0, 100)` draws, one pair per
      wolf in the order Agent.__init__ draws them (`.0` for x, `.1` for y),
      each with an empty store. */
  method SetWolves(n: nat, draws: seq<(int, int)>) returns (wolves: seq<Agent>)
    requires |draws| == n
    requires forall k :: 0 <= k < n ==> 0 <= draws[k].0 <= 100 && 0 <= draws[k].1 <= 100
    ensures |wolves| == n
    ensures forall k :: 0 <= k < n ==> && InDomain(wolves[k])
                                       && wolves[k].store == 0.0
                                       && wolves[k] == NewAgent(None, None, draws[k].0, draws[k].1)
  {
    wolves := [];
    var i := 0;
    while i < n
      invariant 0 <= i <= n
      invariant |wolves| == i
      invariant forall k :: 0 <= k < i ==> && InDomain(wolves[k])
                                           && wolves[k].store == 0.0
                                           && wolves[k] == NewAgent(None, None, draws[k].0, draws[k].1)
    {
      wolves := wolves + [NewAgent(None, None, draws[i].0, draws[i].1)];
      i := i + 1;
    }
  }

  /** What Sheep.eat leaves on a cell that held `cell`. */
  function Leftover(cell: real): real
  {
    if cell >= 10.0 then cell - 10.0 else 0.0
  }

  /** What a cell that held `v` holds after `m` sheep have eaten from it. */
  function Grazes(v: real, m: nat): (r: real)
    ensures v >= 0.0 ==> 0.0 <= r <= v
  {
    if m == 0 then v else Leftover(Grazes(v, m - 1))
  }

  /** Grazing takes 10 per sheep until less than 10 is left, and then the
      rest: after `m` sheep a cell holding `v` keeps `v - 10m`, or nothing. */
  lemma {:induction false} GrazesClosedForm(v: real, m: nat)
    requires v >= 0.0
    ensures Grazes(v, m) == if v >= 10.0 * m as real then v - 10.0 * m as real else 0.0
  {
    if m > 0 {
      GrazesClosedForm(v, m - 1);
    }
  }

  /** A sheep after Sheep.eat on a cell that held `cell`: ten units added, or
      the whole (small) cell in place of its store. */
  function Grazed(a: Agent, cell: real): Agent
  {
    if cell >= 10.0 then a.(store := a.store + 10.0) else a.(store := cell)
  }

  /** Agent `i` of `s` after reproduce: at or above the threshold its store is
      reset and a newborn with an empty store is appended on its cell. */
  function Bred(s: seq<Agent>, i: nat, threshold: nat): seq<Agent>
    requires i < |s|
  {
    if s[i].store >= threshold as real then
      s[i := s[i].(store := 0.0)] + [Agent(s[i].x, s[i].y, 0.0)]
    else
      s
  }

  /** The flock after sheep `i`'s turn of the sheep loop: it moves by its
      coins, eats from the cell it lands on (which held `cell`), shares with the
      whole flock and may reproduce. */
  function SheepStep(s: seq<Agent>, i: nat, c: Coins, cell: real,
                     neighbourhood: nat, threshold: nat): seq<Agent>
    requires i < |s|
  {
    var fed := s[i := Grazed(Walk(s[i], c), cell)];
    Bred(Shared(fed, i, neighbourhood, |fed|), i, threshold)
  }

  /** A sheep's turn moves only that sheep, by its coins; a lamb, if any, is
      appended on the sheep's new cell; stores stay non-negative. */
  lemma SheepStepFacts(s: seq<Agent>, i: nat, c: Coins, cell: real,
                       neighbourhood: nat, threshold: nat)
    requires i < |s|
    ensures var r := SheepStep(s, i, c, cell, neighbourhood, threshold);
            && (|r| == |s| || |r| == |s| + 1)
            && SamePlace(r[i], Walk(s[i], c))
            && (forall k :: 0 <= k < |s| && k != i ==> SamePlace(r[k], s[k]))
            && (|r| == |s| + 1 ==> SamePlace(r[|s|], r[i]))
            && (StoresNonNegative(s) && cell >= 0.0 ==> StoresNonNegative(r))
  {
    var fed := s[i := Grazed(Walk(s[i], c), cell)];
    if StoresNonNegative(s) && cell >= 0.0 {
      assert StoresNonNegative(fed);
      SharedKeepsNonNegative(fed, i, neighbourhood, |fed|);
    }
  }

  /** Wolf.eat's answer for a wolf standing where `w` stands: the lowest index
      of a sheep in strike range, or `None` when no sheep is in range. */
  ghost predicate FirstPrey(w: Agent, flock: seq<Agent>, prey: Option<nat>)
  {
    && (prey.Some? ==> && prey.value < |flock|
                       && InStrike(w, flock[prey.value])
                       && forall k :: 0 <= k < prey.value ==> !InStrike(w, flock[k]))
    && (prey.None? ==> forall k :: 0 <= k < |flock| ==> !InStrike(w, flock[k]))
  }

  /** The answer is determined by the wolf's cell and the flock. */
  lemma FirstPreyUnique(w: Agent, flock: seq<Agent>, p: Option<nat>, q: Option<nat>)
    requires FirstPrey(w, flock, p) && FirstPrey(w, flock, q)
    ensures p == q
  {
  }

  /** A wolf after Wolf.eat: a kill raises its count by one. */
  function Fed(w: Agent, prey: Option<nat>): Agent
  {
    if prey.Some? then w.(store := w.store + 1.0) else w
  }

  /** The pack after wolf `j`'s turn of the wolf loop: it moves by its coins,
      eats (`prey` being its answer) and may reproduce. */
  function WolfStep(s: seq<Agent>, j: nat, c: Coins, prey: Option<nat>, threshold: nat): seq<Agent>
    requires j < |s|
  {
    Bred(s[j := Fed(Walk(s[j], c), prey)], j, threshold)
  }

  /** A wolf's turn moves only that wolf, by its coins; a cub, if any, is
      appended on the wolf's new cell; kill counts stay non-negative. */
  lemma WolfStepFacts(s: seq<Agent>, j: nat, c: Coins, prey: Option<nat>, threshold: nat)
    requires j < |s|
    ensures var r := WolfStep(s, j, c, prey, threshold);
            && (|r| == |s| || |r| == |s| + 1)
            && SamePlace(r[j], Walk(s[j], c))
            && (forall k :: 0 <= k < |s| && k != j ==> r[k] == s[k])
            && (|r| == |s| + 1 ==> SamePlace(r[|s|], r[j]))
            && (StoresNonNegative(s) ==> StoresNonNegative(r))
  {
  }

  /** The list `sheep_to_remove`: the indices the wolves reported, in the order
      of the wolves that reported them; one entry at most per wolf. */
  function Reported(hits: seq<Option<nat>>): (r: seq<nat>)
    ensures |r| <= |hits|
  {
    if hits == [] then
      []
    else
      var n := |hits| - 1;
      Reported(hits[..n]) + (if hits[n].Some? then [hits[n].value] else [])
  }

  /** Every reported index is some wolf's answer, and every wolf's answer is
      reported. */
  lemma {:induction false} ReportedMembers(hits: seq<Option<nat>>)
    ensures forall t :: 0 <= t < |Reported(hits)| ==> Some(Reported(hits)[t]) in hits
    ensures forall j :: 0 <= j < |hits| && hits[j].Some? ==> hits[j].value in Reported(hits)
  {
    if hits != [] {
      var n := |hits| - 1;
      ReportedMembers(hits[..n]);
      assert hits == hits[..n] + [hits[n]];
      var front := Reported(hits[..n]);
      forall t | 0 <= t < |front|
        ensures Some(front[t]) in hits
      {
        assert Some(front[t]) in hits[..n];
      }
      forall j | 0 <= j < n && hits[j].Some?
        ensures hits[j].value in Reported(hits)
      {
        assert hits[..n][j] == hits[j];
      }
    }
  }

  /** The sheep loop of update as a trace: `states[j]` is the flock before
      sheep `j`'s turn, `found[j]` the value sheep `j` found on the cell it
      landed on, and each turn is a SheepStep. `range(len(flock))` is fixed
      before the loop, so exactly the sheep present at its start take a turn. */
  ghost predicate SheepPassTrace(s0: seq<Agent>, s: seq<Agent>, coins: seq<Coins>,
                                 neighbourhood: nat, threshold: nat,
                                 states: seq<seq<Agent>>, found: seq<real>)
  {
    && |coins| == |s0| && |found| == |s0| && |states| == |s0| + 1
    && states[0] == s0 && states[|s0|] == s
    && forall j :: 0 <= j < |s0| ==>
         && j < |states[j]|
         && found[j] >= 0.0
         && states[j + 1] == SheepStep(states[j], j, coins[j], found[j], neighbourhood, threshold)
  }

  /** The cell sheep `j` lands on in a sheep-loop trace. */
  ghost function Landing(states: seq<seq<Agent>>, coins: seq<Coins>, j: nat): Agent
    requires j < |states| && j < |states[j]| && j < |coins|
  {
    Walk(states[j][j], coins[j])
  }

  /** What a sheep loop leaves, after its first `j` turns: the sheep that have
      had their turn stand where their coins took them, the others where they
      started, the lambs (at most one per turn) on the board, and no store is
      negative. */
  lemma {:induction false} SheepPassPrefix(s0: seq<Agent>, coins: seq<Coins>,
                                           neighbourhood: nat, threshold: nat,
                                           states: seq<seq<Agent>>, found: seq<real>, j: nat)
    requires |states| == |s0| + 1
    requires SheepPassTrace(s0, states[|s0|], coins, neighbourhood, threshold, states, found)
    requires j <= |s0|
    ensures |s0| <= |states[j]| <= |s0| + j
    ensures forall k :: 0 <= k < j ==> SamePlace(states[j][k], Walk(s0[k], coins[k]))
    ensures forall k :: j <= k < |s0| ==> SamePlace(states[j][k], s0[k])
    ensures forall k :: |s0| <= k < |states[j]| ==> OnBoard(states[j][k])
    ensures StoresNonNegative(s0) ==> StoresNonNegative(states[j])
  {
    if j > 0 {
      var l := j - 1;
      SheepPassPrefix(s0, coins, neighbourhood, threshold, states, found, l);
      SheepStepFacts(states[l], l, coins[l], found[l], neighbourhood, threshold);
    }
  }

  /** The wolf loop of update as a trace: `packs[j]` is the pack before wolf
      `j`'s turn and `hits[j]` its answer from Wolf.eat over the (unchanged)
      flock, taken where its move left it; each turn is a WolfStep. */
  ghost predicate WolfPassTrace(p0: seq<Agent>, p: seq<Agent>, flock: seq<Agent>,
                                coins: seq<Coins>, threshold: nat,
                                packs: seq<seq<Agent>>, hits: seq<Option<nat>>)
  {
    && |coins| == |p0| && |hits| == |p0| && |packs| == |p0| + 1
    && packs[0] == p0 && packs[|p0|] == p
    && forall j :: 0 <= j < |p0| ==>
         && j < |packs[j]|
         && FirstPrey(Walk(packs[j][j], coins[j]), flock, hits[j])
         && packs[j + 1] == WolfStep(packs[j], j, coins[j], hits[j], threshold)
  }

  /** What a wolf loop leaves, after its first `j` turns: as SheepPassPrefix,
      for the pack; kill counts stay non-negative. */
  lemma {:induction false} WolfPassPrefix(p0: seq<Agent>, flock: seq<Agent>, coins: seq<Coins>,
                                          threshold: nat, packs: seq<seq<Agent>>,
                                          hits: seq<Option<nat>>, j: nat)
    requires |packs| == |p0| + 1
    requires WolfPassTrace(p0, packs[|p0|], flock, coins, threshold, packs, hits)
    requires j <= |p0|
    ensures |p0| <= |packs[j]| <= |p0| + j
    ensures forall k :: 0 <= k < j ==> SamePlace(packs[j][k], Walk(p0[k], coins[k]))
    ensures forall k :: j <= k < |p0| ==> packs[j][k] == p0[k]
    ensures forall k :: |p0| <= k < |packs[j]| ==> OnBoard(packs[j][k])
    ensures StoresNonNegative(p0) ==> StoresNonNegative(packs[j])
  {
    if j > 0 {
      var l := j - 1;
      WolfPassPrefix(p0, flock, coins, threshold, packs, hits, l);
      WolfStepFacts(packs[l], l, coins[l], hits[l], threshold);
    }
  }

  /** Every index the wolves report is a sheep of the flock they hunted. */
  lemma ReportedInFlock(p0: seq<Agent>, p: seq<Agent>, flock: seq<Agent>, coins: seq<Coins>,
                        threshold: nat, packs: seq<seq<Agent>>, hits: seq<Option<nat>>)
    requires WolfPassTrace(p0, p, flock, coins, threshold, packs, hits)
    ensures forall t :: 0 <= t < |Reported(hits)| ==> Reported(hits)[t] < |flock|
  {
    var r := Reported(hits);
    ReportedMembers(hits);
    forall t | 0 <= t < |r|
      ensures r[t] < |flock|
    {
      assert Some(r[t]) in hits;
      var j :| 0 <= j < |hits| && hits[j] == Some(r[t]);
      assert FirstPrey(Walk(packs[j][j], coins[j]), flock, hits[j]);
    }
  }

  /** No agent in `spots` stands on the cell in row `r`, column `c`. */
  ghost predicate Unvisited(spots: seq<Agent>, r: int, c: int)
  {
    forall l :: 0 <= l < |spots| ==> !(spots[l].y == r && spots[l].x == c)
  }

  /** How many agents in `spots` stand on the cell in row `r`, column `c`. */
  ghost function Visits(spots: seq<Agent>, r: int, c: int): (m: nat)
    ensures m <= |spots|
  {
    if spots == [] then 0
    else Visits(spots[..|spots| - 1], r, c) + (if spots[|spots| - 1].y == r && spots[|spots| - 1].x == c then 1 else 0)
  }

  /** A cell has no visits exactly when no agent in `spots` stands on it. */
  lemma {:induction false} VisitsZeroIsUnvisited(spots: seq<Agent>, r: int, c: int)
    ensures Visits(spots, r, c) == 0 <==> Unvisited(spots, r, c)
  {
    if spots != [] {
      var n := |spots| - 1;
      VisitsZeroIsUnvisited(spots[..n], r, c);
      UnvisitedExtend(spots[..n], spots[n], r, c);
      assert spots[..n] + [spots[n]] == spots;
    }
  }

  lemma VisitsExtend(spots: seq<Agent>, p: Agent, r: int, c: int)
    ensures Visits(spots + [p], r, c) == Visits(spots, r, c) + (if p.y == r && p.x == c then 1 else 0)
  {
    assert (spots + [p])[..|spots|] == spots;
  }

  lemma UnvisitedExtend(spots: seq<Agent>, p: Agent, r: int, c: int)
    ensures Unvisited(spots + [p], r, c) <==> Unvisited(spots, r, c) && !(p.y == r && p.x == c)
  {
    assert (spots + [p])[|spots|] == p;
    assert forall l :: 0 <= l < |spots| ==> (spots + [p])[l] == spots[l];
  }

  /** The first `i` turns of a sheep-loop trace, with the cells landed on. */
  ghost predicate TraceUpTo(states: seq<seq<Agent>>, found: seq<real>, spots: seq<Agent>,
                            coins: seq<Coins>, neighbourhood: nat, threshold: nat, i: nat)
  {
    && i < |states| && i <= |found| && i <= |spots| && i <= |coins|
    && forall j :: 0 <= j < i ==>
         && j < |states[j]|
         && found[j] >= 0.0
         && states[j + 1] == SheepStep(states[j], j, coins[j], found[j], neighbourhood, threshold)
         && spots[j] == Landing(states, coins, j)
  }

  lemma ExtendTrace(states: seq<seq<Agent>>, found: seq<real>, spots: seq<Agent>,
                    coins: seq<Coins>, neighbourhood: nat, threshold: nat, i: nat,
                    next: seq<Agent>, f: real, p: Agent)
    requires |states| == i + 1 && |found| == i && |spots| == i && i < |coins|
    requires TraceUpTo(states, found, spots, coins, neighbourhood, threshold, i)
    requires i < |states[i]| && f >= 0.0 && p == Walk(states[i][i], coins[i])
    requires next == SheepStep(states[i], i, coins[i], f, neighbourhood, threshold)
    ensures TraceUpTo(states + [next], found + [f], spots + [p], coins, neighbourhood, threshold, i + 1)
  {
    var states', found', spots' := states + [next], found + [f], spots + [p];
    forall j | 0 <= j < i + 1
      ensures && j < |states'[j]|
              && found'[j] >= 0.0
              && states'[j + 1] == SheepStep(states'[j], j, coins[j], found'[j], neighbourhood, threshold)
              && spots'[j] == Landing(states', coins, j)
    {
      assert states'[j] == states[j] && found'[j] == (if j < i then found[j] else f);
      assert spots'[j] == (if j < i then spots[j] else p);
    }
  }

  /** The value in `g0` of the cell under an agent, if it is inside `g0`. */
  ghost function At(g0: seq<seq<real>>, a: Agent): real
  {
    if 0 <= a.y < |g0| && 0 <= a.x < |g0[a.y]| then g0[a.y][a.x] else 0.0
  }

  /** What each sheep found is at most its cell's starting value in `g0`,
      and equal to it on the first visit to that cell. */
  ghost predicate FoundBounded(found: seq<real>, g0: seq<seq<real>>, spots: seq<Agent>)
  {
    && |found| == |spots|
    && forall j :: 0 <= j < |spots| ==>
         && found[j] <= At(g0, spots[j])
         && (Unvisited(spots[..j], spots[j].y, spots[j].x) ==> found[j] == At(g0, spots[j]))
  }

  /** What each sheep found is its cell's starting value in `g0`, grazed by
      every earlier sheep that landed there. */
  ghost predicate FoundExact(found: seq<real>, g0: seq<seq<real>>, spots: seq<Agent>)
  {
    && |found| == |spots|
    && forall j :: 0 <= j < |spots| ==>
         found[j] == Grazes(At(g0, spots[j]), Visits(spots[..j], spots[j].y, spots[j].x))
  }

  lemma ExtendExact(found: seq<real>, g0: seq<seq<real>>, spots: seq<Agent>, f: real, p: Agent)
    requires FoundExact(found, g0, spots)
    requires f == Grazes(At(g0, p), Visits(spots, p.y, p.x))
    ensures FoundExact(found + [f], g0, spots + [p])
  {
    var n := |spots|;
    var spots' := spots + [p];
    assert spots'[..n] == spots;
    forall j | 0 <= j < n
      ensures spots'[..j] == spots[..j] && spots'[j] == spots[j]
    {
    }
  }

  /** Grazing never raises a cell, and no visit leaves it as it was, so
      exact finds are bounded finds. */
  lemma ExactIsBounded(found: seq<real>, g0: seq<seq<real>>, spots: seq<Agent>)
    requires FoundExact(found, g0, spots)
    requires forall r, c :: 0 <= r < |g0| && 0 <= c < |g0[r]| ==> g0[r][c] >= 0.0
    ensures FoundBounded(found, g0, spots)
  {
    forall j | 0 <= j < |spots|
      ensures found[j] <= At(g0, spots[j])
      ensures Unvisited(spots[..j], spots[j].y, spots[j].x) ==> found[j] == At(g0, spots[j])
    {
      VisitsZeroIsUnvisited(spots[..j], spots[j].y, spots[j].x);
    }
  }



  /** The first `j` turns of a wolf-loop trace. */
  ghost predicate HuntUpTo(packs: seq<seq<Agent>>, hits: seq<Option<nat>>, flock: seq<Agent>,
                           coins: seq<Coins>, threshold: nat, j: nat)
  {
    && j < |packs| && j <= |hits| && j <= |coins|
    && forall l :: 0 <= l < j ==>
         && l < |packs[l]|
         && FirstPrey(Walk(packs[l][l], coins[l]), flock, hits[l])
         && packs[l + 1] == WolfStep(packs[l], l, coins[l], hits[l], threshold)
  }

  lemma ExtendHunt(packs: seq<seq<Agent>>, hits: seq<Option<nat>>, flock: seq<Agent>,
                   coins: seq<Coins>, threshold: nat, j: nat, next: seq<Agent>, x: Option<nat>)
    requires |packs| == j + 1 && |hits| == j && j < |coins|
    requires HuntUpTo(packs, hits, flock, coins, threshold, j)
    requires j < |packs[j]| && FirstPrey(Walk(packs[j][j], coins[j]), flock, x)
    requires next == WolfStep(packs[j], j, coins[j], x, threshold)
    ensures HuntUpTo(packs + [next], hits + [x], flock, coins, threshold, j + 1)
  {
    var packs', hits' := packs + [next], hits + [x];
    forall l | 0 <= l < j + 1
      ensures && l < |packs'[l]|
              && FirstPrey(Walk(packs'[l][l], coins[l]), flock, hits'[l])
              && packs'[l + 1] == WolfStep(packs'[l], l, coins[l], hits'[l], threshold)
    {
      assert packs'[l] == packs[l] && hits'[l] == (if l < j then hits[l] else x);
    }
  }

  lemma ReportedExtend(hits: seq<Option<nat>>, x: Option<nat>)
    ensures Reported(hits + [x]) == Reported(hits) + (if x.Some? then [x.value] else [])
  {
    assert (hits + [x])[..|hits|] == hits;
  }

  class World {
    /** The environment, indexed [y, x]; the list of lists is never replaced. */
    const grid: array2<real>
    var flock: seq<Agent>
    var wolves: seq<Agent>

    ghost predicate Valid()
    {
      grid.Length0 >= 100 && grid.Length1 >= 100
    }

    /** No cell of the environment is negative. */
    ghost predicate GridNonNegative()
      reads grid
    {
      forall r, c :: 0 <= r < grid.Length0 && 0 <= c < grid.Length1 ==> grid[r, c] >= 0.0
    }

    /** The environment's values, row by row. */
    ghost function Snapshot(): (g: seq<seq<real>>)
      reads grid
      ensures |g| == grid.Length0
      ensures forall r :: 0 <= r < |g| ==> |g[r]| == grid.Length1
      ensures forall r, c :: 0 <= r < grid.Length0 && 0 <= c < grid.Length1 ==> g[r][c] == grid[r, c]
    {
      seq(grid.Length0, r requires 0 <= r < grid.Length0 reads grid =>
        seq(grid.Length1, c requires 0 <= c < grid.Length1 reads grid => grid[r, c]))
    }

    /** Every cell holds its value in `g0` grazed once for each agent of
        `spots` standing on it. */
    ghost predicate GrazedFrom(g0: seq<seq<real>>, spots: seq<Agent>)
      reads grid
    {
      && |g0| == grid.Length0
      && (forall r :: 0 <= r < |g0| ==> |g0[r]| == grid.Length1)
      && forall r, c :: 0 <= r < grid.Length0 && 0 <= c < grid.Length1
                        ==> grid[r, c] == Grazes(g0[r][c], Visits(spots, r, c))
    }

    /** The cell of the environment under an agent on the board. */
    ghost function Cell(a: Agent): real
      requires Valid() && OnBoard(a)
      reads grid
    {
      grid[a.y, a.x]
    }

    constructor (grid: array2<real>, flock: seq<Agent>, wolves: seq<Agent>)
      requires grid.Length0 >= 100 && grid.Length1 >= 100
      ensures Valid()
      ensures this.grid == grid && this.flock == flock && this.wolves == wolves
    {
      this.grid := grid;
      this.flock := flock;
      this.wolves := wolves;
    }

    /** Agent.move for sheep `i`. */
    method MoveSheep(i: nat, coins: Coins)
      requires i < |flock|
      modifies this`flock
      ensures flock == old(flock)[i := Walk(old(flock[i]), coins)]
    {
      var b := Move(flock[i], coins);
      flock := flock[i := b];
    }

    /** Agent.move for wolf `j`. */
    method MoveWolf(j: nat, coins: Coins)
      requires j < |wolves|
      modifies this`wolves
      ensures wolves == old(wolves)[j := Walk(old(wolves[j]), coins)]
    {
      var b := Move(wolves[j], coins);
      wolves := wolves[j := b];
    }

    /** Sheep.eat for sheep `i`: a cell holding at least 10 loses exactly 10 to
        the store; a poorer cell is emptied and its value REPLACES the store.
        No other cell and no other sheep changes. */
    method SheepEat(i: nat)
      requires Valid() && i < |flock| && OnBoard(flock[i])
      modifies this`flock, grid
      ensures |flock| == old(|flock|)
      ensures forall k :: 0 <= k < |flock| && k != i ==> flock[k] == old(flock[k])
      ensures SamePlace(flock[i], old(flock[i]))
      ensures var a := old(flock[i]);
              old(grid[a.y, a.x]) >= 10.0 ==>
                grid[a.y, a.x] == old(grid[a.y, a.x]) - 10.0 && flock[i].store == a.store + 10.0
      ensures var a := old(flock[i]);
              old(grid[a.y, a.x]) < 10.0 ==>
                grid[a.y, a.x] == 0.0 && flock[i].store == old(grid[a.y, a.x])
      ensures forall r, c ::
                (0 <= r < grid.Length0 && 0 <= c < grid.Length1 &&
                 (r != old(flock[i]).y || c != old(flock[i]).x)) ==> grid[r, c] == old(grid[r, c])
      ensures old(GridNonNegative()) ==> GridNonNegative()
      ensures old(StoresNonNegative(flock)) && old(GridNonNegative()) ==> StoresNonNegative(flock)
    {
      var a := flock[i];
      if grid[a.y, a.x] >= 10.0 {
        grid[a.y, a.x] := grid[a.y, a.x] - 10.0;
        flock := flock[i := a.(store := a.store + 10.0)];
      } else {
        flock := flock[i := a.(store := grid[a.y, a.x])];
        grid[a.y, a.x] := 0.0;
      }
    }

    /** Sheep.share_with_neighbours for sheep `i`: the loop over the whole flock
        (sheep `i` itself included) of ShareStep, in list order. */
    method ShareWithNeighbours(i: nat, neighbourhood: nat)
      requires i < |flock|
      modifies this`flock
      ensures flock == Shared(old(flock), i, neighbourhood, |old(flock)|)
    {
      var k := 0;
      while k < |flock|
        invariant 0 <= k <= |flock| == |old(flock)|
        invariant flock == Shared(old(flock), i, neighbourhood, k)
      {
        if SheepDistanceSq(flock[i], flock[k]) <= neighbourhood * neighbourhood {
          var ave := (flock[i].store + flock[k].store) / 2.0;
          flock := flock[i := flock[i].(store := ave)];
          flock := flock[k := flock[k].(store := ave)];
        }
        k := k + 1;
      }
    }

    /** Sheep.reproduce for sheep `i`: at or above the threshold the store is
        reset and a sheep with an empty store is appended at the parent's
        position; below it nothing changes. */
    method SheepReproduce(i: nat, threshold: nat)
      requires i < |flock|
      modifies this`flock
      ensures var a := old(flock[i]);
              a.store >= threshold as real ==>
                flock == old(flock)[i := a.(store := 0.0)] + [Agent(a.x, a.y, 0.0)]
      ensures old(flock[i]).store < threshold as real ==> flock == old(flock)
    {
      if flock[i].store >= threshold as real {
        var a := flock[i];
        flock := flock[i := a.(store := 0.0)];
        // The clone is built from given coordinates, so no draw is used.
        flock := flock + [NewAgent(Some(a.y), Some(a.x), 0, 0)];
      }
    }

    /** Wolf.eat for wolf `j`: the search runs over the flock with the wolf's
        own pack as the (ignored) inner loop; on a hit the kill count rises by
        one. The flock is only read. */
    method WolfEat(j: nat) returns (prey: Option<nat>)
      requires j < |wolves|
      modifies this`wolves
      ensures FirstPrey(old(wolves[j]), flock, prey)
      ensures wolves == old(wolves)[j := Fed(old(wolves[j]), prey)]
    {
      prey := FirstInStrike(wolves[j], flock, wolves);
      if prey.Some? {
        wolves := wolves[j := wolves[j].(store := wolves[j].store + 1.0)];
      }
    }

    /** Wolf.reproduce for wolf `j`: as SheepReproduce, on the pack. */
    method WolfReproduce(j: nat, threshold: nat)
      requires j < |wolves|
      modifies this`wolves
      ensures var a := old(wolves[j]);
              a.store >= threshold as real ==>
                wolves == old(wolves)[j := a.(store := 0.0)] + [Agent(a.x, a.y, 0.0)]
      ensures old(wolves[j]).store < threshold as real ==> wolves == old(wolves)
    {
      if wolves[j].store >= threshold as real {
        var a := wolves[j];
        wolves := wolves[j := a.(store := 0.0)];
        wolves := wolves + [NewAgent(Some(a.y), Some(a.x), 0, 0)];
      }
    }

    /** One sheep's turn in update's loop: move, eat, share, reproduce.
        `found` is what the cell it landed on held; that cell is the only one
        to change. */
    method SheepTurn(i: nat, coins: Coins, neighbourhood: nat, threshold: nat)
      returns (ghost found: real)
      requires Valid() && i < |flock|
      requires GridNonNegative() && StoresNonNegative(flock)
      modifies this`flock, grid
      ensures found == old(Cell(Walk(flock[i], coins)))
      ensures flock == SheepStep(old(flock), i, coins, found, neighbourhood, threshold)
      ensures Cell(Walk(old(flock[i]), coins)) == Leftover(found)
      ensures forall r, c :: (0 <= r < grid.Length0 && 0 <= c < grid.Length1 &&
                              (r != Walk(old(flock[i]), coins).y || c != Walk(old(flock[i]), coins).x))
                             ==> grid[r, c] == old(grid[r, c])
      ensures GridNonNegative() && StoresNonNegative(flock)
      ensures |flock| >= old(|flock|)
    {
      MoveSheep(i, coins);
      found := grid[flock[i].y, flock[i].x];
      SheepEat(i);
      ghost var fed := flock;
      assert fed == old(flock)[i := Grazed(Walk(old(flock[i]), coins), found)];
      ShareWithNeighbours(i, neighbourhood);
      SharedKeepsNonNegative(fed, i, neighbourhood, |fed|);
      SheepReproduce(i, threshold);
    }

    /** The sheep loop of update, with its trace: every turn is a SheepStep.
        `spots[j]` is the cell sheep `j` lands on. Measured against `g0`, the
        grid as the loop found it, every cell ends grazed once per sheep that
        landed on it, and each sheep found its cell grazed by the sheep that
        landed there before it. */
    method SheepLoop(coins: seq<Coins>, neighbourhood: nat, threshold: nat, ghost g0: seq<seq<real>>)
      returns (ghost states: seq<seq<Agent>>, ghost found: seq<real>, ghost spots: seq<Agent>)
      requires Valid() && |coins| == |flock|
      requires GridNonNegative() && StoresNonNegative(flock)
      requires GrazedFrom(g0, [])
      modifies this`flock, grid
      ensures SheepPassTrace(old(flock), flock, coins, neighbourhood, threshold, states, found)
      ensures |spots| == |found|
      ensures forall j :: 0 <= j < |spots| ==> spots[j] == Landing(states, coins, j) && OnBoard(spots[j])
      ensures FoundExact(found, g0, spots) && GrazedFrom(g0, spots)
      ensures GridNonNegative() && StoresNonNegative(flock)
    {
      var n := |flock|;
      states, found, spots := [flock], [], [];
      for i := 0 to n
        invariant n <= |flock|
        invariant GridNonNegative() && StoresNonNegative(flock)
        invariant |states| == i + 1 && |found| == i && |spots| == i
        invariant states[0] == old(flock) && states[i] == flock
        invariant TraceUpTo(states, found, spots, coins, neighbourhood, threshold, i)
        invariant FoundExact(found, g0, spots)
        invariant GrazedFrom(g0, spots)
      {
        ghost var p := Walk(flock[i], coins[i]);
        ghost var before := Snapshot();
        ghost var f := SheepTurn(i, coins[i], neighbourhood, threshold);
        GrazedStep(this, g0, before, spots, p, f);
        ExtendTrace(states, found, spots, coins, neighbourhood, threshold, i, flock, f, p);
        ExtendExact(found, g0, spots, f, p);
        states, found, spots := states + [flock], found + [f], spots + [p];
      }
    }

    /** The sheep loop of update against the grid as it stood before it:
        what sheep `j` finds is its landing cell's starting value grazed by
        every earlier sheep that landed there, so at most that value, and
        exactly it on the first visit to the cell. Every cell ends grazed once
        per sheep that landed on it: no cell rises, and a cell no sheep lands
        on is untouched. */
    method SheepPass(coins: seq<Coins>, neighbourhood: nat, threshold: nat)
      returns (ghost states: seq<seq<Agent>>, ghost found: seq<real>, ghost spots: seq<Agent>)
      requires Valid() && |coins| == |flock|
      requires GridNonNegative() && StoresNonNegative(flock)
      modifies this`flock, grid
      ensures SheepPassTrace(old(flock), flock, coins, neighbourhood, threshold, states, found)
      ensures |spots| == |found|
      ensures forall j :: 0 <= j < |spots| ==> spots[j] == Landing(states, coins, j) && OnBoard(spots[j])
      ensures forall j :: 0 <= j < |spots| ==>
                && found[j] <= old(Cell(spots[j]))
                && (Unvisited(spots[..j], spots[j].y, spots[j].x) ==> found[j] == old(Cell(spots[j])))
      ensures GridNonNegative() && StoresNonNegative(flock)
      ensures forall r, c :: 0 <= r < grid.Length0 && 0 <= c < grid.Length1 ==> grid[r, c] <= old(grid[r, c])
      ensures forall r, c :: 0 <= r < grid.Length0 && 0 <= c < grid.Length1 && Unvisited(spots, r, c)
                             ==> grid[r, c] == old(grid[r, c])
      ensures forall j :: 0 <= j < |spots| ==>
                found[j] == Grazes(old(Cell(spots[j])), Visits(spots[..j], spots[j].y, spots[j].x))
      ensures forall r, c :: 0 <= r < grid.Length0 && 0 <= c < grid.Length1
                             ==> grid[r, c] == Grazes(old(grid[r, c]), Visits(spots, r, c))
    {
      ghost var g0 := Snapshot();
      assert forall r, c :: 0 <= r < |g0| && 0 <= c < |g0[r]| ==> g0[r][c] >= 0.0;
      states, found, spots := SheepLoop(coins, neighbourhood, threshold, g0);
      ExactIsBounded(found, g0, spots);
      forall j | 0 <= j < |spots|
        ensures At(g0, spots[j]) == old(Cell(spots[j]))
      {
      }
      forall r, c | 0 <= r < grid.Length0 && 0 <= c < grid.Length1
        ensures grid[r, c] <= old(grid[r, c])
        ensures Unvisited(spots, r, c) ==> grid[r, c] == old(grid[r, c])
      {
        VisitsZeroIsUnvisited(spots, r, c);
      }
    }

    /** One wolf's turn in update's loop: move, eat, reproduce. `prey` is its
        answer from Wolf.eat, taken where the move left it. */
    method WolfTurn(j: nat, coins: Coins, threshold: nat) returns (prey: Option<nat>)
      requires j < |wolves|
      modifies this`wolves
      ensures FirstPrey(Walk(old(wolves[j]), coins), flock, prey)
      ensures wolves == WolfStep(old(wolves), j, coins, prey, threshold)
      ensures |wolves| >= old(|wolves|)
    {
      MoveWolf(j, coins);
      prey := WolfEat(j);
      WolfReproduce(j, threshold);
    }

    /** The wolf loop of update, with its trace: every turn is a WolfStep, and
        `prey` lists the answers that found a sheep, in wolf order. */
    method WolfPass(coins: seq<Coins>, threshold: nat)
      returns (prey: seq<nat>, ghost packs: seq<seq<Agent>>, ghost hits: seq<Option<nat>>)
      requires |coins| == |wolves|
      modifies this`wolves
      ensures WolfPassTrace(old(wolves), wolves, flock, coins, threshold, packs, hits)
      ensures prey == Reported(hits)
    {
      var m := |wolves|;
      prey, packs, hits := [], [wolves], [];
      for j := 0 to m
        invariant m <= |wolves|
        invariant |packs| == j + 1 && |hits| == j
        invariant packs[0] == old(wolves) && packs[j] == wolves
        invariant HuntUpTo(packs, hits, flock, coins, threshold, j)
        invariant prey == Reported(hits)
      {
        var x := WolfTurn(j, coins[j], threshold);
        if x.Some? {
          prey := prey + [x.value];
        }
        ReportedExtend(hits, x);
        ExtendHunt(packs, hits, flock, coins, threshold, j, wolves, x);
        packs, hits := packs + [wolves], hits + [x];
      }
    }

    /** The removal step of update: when any prey was reported, its indices
        are sorted largest first and each is deleted in turn; a `del` past the
        end (a repeated index naming the last sheep) raises, which is `ok ==
        false`, with the deletions done so far kept. */
    method RemovePrey(prey: seq<nat>) returns (ok: bool)
      modifies this`flock
      ensures ok == DeleteAll(old(flock), SortDescending(prey)).Some?
      ensures ok ==> flock == DeleteAll(old(flock), SortDescending(prey)).value
    {
      ok := true;
      if |prey| >= 1 {
        var order := SortDescending(prey);
        for t := 0 to |order|
          invariant DeleteAll(flock, order[t..]) == DeleteAll(old(flock), order)
        {
          var k := order[t];
          assert order[t..][1..] == order[t + 1..];
          if k >= |flock| {
            ok := false;
            return;
          }
          flock := flock[..k] + flock[k + 1..];
        }
      }
    }

    /** The first half of update: shuffle both lists, then run the sheep
        loop over the shuffled flock. What each sheep finds is tied to the
        grid as in SheepPass: the shuffles leave the grid alone. */
    method ShuffleAndGraze(flockDraws: seq<nat>, wolfDraws: seq<nat>, sheepCoins: seq<Coins>,
                           neighbourhood: nat, sheepThreshold: nat)
      returns (ghost states: seq<seq<Agent>>, ghost found: seq<real>, ghost spots: seq<Agent>)
      requires Valid()
      requires ShuffleDraws(flockDraws, |flock|) && ShuffleDraws(wolfDraws, |wolves|)
      requires |sheepCoins| == |flock|
      requires GridNonNegative() && StoresNonNegative(flock) && StoresNonNegative(wolves)
      modifies this`flock, this`wolves, grid
      ensures SheepPassTrace(Swaps(old(flock), flockDraws, old(|flock|)), flock,
                             sheepCoins, neighbourhood, sheepThreshold, states, found)
      ensures wolves == Swaps(old(wolves), wolfDraws, old(|wolves|))
      ensures GridNonNegative() && StoresNonNegative(flock) && StoresNonNegative(wolves)
      ensures forall r, c :: 0 <= r < grid.Length0 && 0 <= c < grid.Length1 ==> grid[r, c] <= old(grid[r, c])
      ensures old(|flock|) <= |flock| <= 2 * old(|flock|)
      ensures forall k :: 0 <= k < |flock| ==> OnBoard(flock[k])
      ensures |spots| == |found|
      ensures forall j :: 0 <= j < |spots| ==> spots[j] == Landing(states, sheepCoins, j) && OnBoard(spots[j])
      ensures forall j :: 0 <= j < |spots| ==>
                && found[j] <= old(Cell(spots[j]))
                && (Unvisited(spots[..j], spots[j].y, spots[j].x) ==> found[j] == old(Cell(spots[j])))
      ensures forall r, c :: 0 <= r < grid.Length0 && 0 <= c < grid.Length1 && Unvisited(spots, r, c)
                             ==> grid[r, c] == old(grid[r, c])
      ensures forall j :: 0 <= j < |spots| ==>
                found[j] == Grazes(old(Cell(spots[j])), Visits(spots[..j], spots[j].y, spots[j].x))
      ensures forall r, c :: 0 <= r < grid.Length0 && 0 <= c < grid.Length1
                             ==> grid[r, c] == Grazes(old(grid[r, c]), Visits(spots, r, c))
    {
      flock := Shuffle(flock, flockDraws);
      PermutationKeepsStores(old(flock), flock);
      wolves := Shuffle(wolves, wolfDraws);
      PermutationKeepsStores(old(wolves), wolves);
      ghost var sheep0 := flock;
      states, found, spots := SheepPass(sheepCoins, neighbourhood, sheepThreshold);
      SheepPassPrefix(sheep0, sheepCoins, neighbourhood, sheepThreshold, states, found, |sheep0|);
    }

    /** The second half of update: the wolf loop over the flock the sheep
        left (`hunted`), then the deletion of the reported prey. */
    method HuntAndRemove(wolfCoins: seq<Coins>, wolfThreshold: nat)
      returns (ok: bool, prey: seq<nat>, ghost packs: seq<seq<Agent>>, ghost hits: seq<Option<nat>>)
      requires |wolfCoins| == |wolves|
      requires StoresNonNegative(flock) && StoresNonNegative(wolves)
      requires forall k :: 0 <= k < |flock| ==> OnBoard(flock[k])
      modifies this`flock, this`wolves
      ensures WolfPassTrace(old(wolves), wolves, old(flock), wolfCoins, wolfThreshold, packs, hits)
      ensures prey == Reported(hits)
      ensures ok == DeleteAll(old(flock), SortDescending(prey)).Some?
      ensures ok ==> flock == DeleteAll(old(flock), SortDescending(prey)).value
      ensures Distinct(prey) ==> ok && flock == Without(old(flock), Elements(prey))
      ensures StoresNonNegative(wolves)
      ensures old(|wolves|) <= |wolves| <= 2 * old(|wolves|)
      ensures forall k :: 0 <= k < |wolves| ==> OnBoard(wolves[k])
      ensures |prey| <= old(|wolves|)
      ensures forall t :: 0 <= t < |prey| ==> prey[t] < old(|flock|)
      ensures ok ==> |flock| == old(|flock|) - |prey|
      ensures ok ==> StoresNonNegative(flock) && forall k :: 0 <= k < |flock| ==> OnBoard(flock[k])
    {
      ghost var pack0, hunted := wolves, flock;
      prey, packs, hits := WolfPass(wolfCoins, wolfThreshold);
      WolfPassPrefix(pack0, hunted, wolfCoins, wolfThreshold, packs, hits, |pack0|);
      ReportedInFlock(pack0, wolves, hunted, wolfCoins, wolfThreshold, packs, hits);
      ok := RemovePrey(prey);
      if ok {
        SurvivorsStayInRange(hunted, flock);
      }
      if Distinct(prey) {
        DeleteDistinctIndices(hunted, prey);
      }
    }

    /** update, without the plotting: shuffle both lists, run the sheep loop,
        then the wolf loop over the flock the sheep left (`hunted`), then
        delete the reported prey. The ghost results are the two loops'
        traces and the cells the sheep landed on. */
    method Update(flockDraws: seq<nat>, wolfDraws: seq<nat>,
                  sheepCoins: seq<Coins>, wolfCoins: seq<Coins>,
                  neighbourhood: nat, wolfThreshold: nat, sheepThreshold: nat)
      returns (ok: bool, prey: seq<nat>, ghost hunted: seq<Agent>,
               ghost states: seq<seq<Agent>>, ghost found: seq<real>, ghost spots: seq<Agent>,
               ghost packs: seq<seq<Agent>>, ghost hits: seq<Option<nat>>)
      requires Valid()
      requires |flock| > 0
      requires ShuffleDraws(flockDraws, |flock|) && ShuffleDraws(wolfDraws, |wolves|)
      requires |sheepCoins| == |flock| && |wolfCoins| == |wolves|
      requires GridNonNegative() && StoresNonNegative(flock) && StoresNonNegative(wolves)
      modifies this`flock, this`wolves, grid
      ensures SheepPassTrace(Swaps(old(flock), flockDraws, old(|flock|)), hunted,
                             sheepCoins, neighbourhood, sheepThreshold, states, found)
      ensures WolfPassTrace(Swaps(old(wolves), wolfDraws, old(|wolves|)), wolves, hunted,
                            wolfCoins, wolfThreshold, packs, hits)
      ensures prey == Reported(hits)
      ensures ok == DeleteAll(hunted, SortDescending(prey)).Some?
      ensures ok ==> flock == DeleteAll(hunted, SortDescending(prey)).value
      ensures Distinct(prey) ==> ok && flock == Without(hunted, Elements(prey))
      ensures GridNonNegative() && StoresNonNegative(wolves)
      ensures forall r, c :: 0 <= r < grid.Length0 && 0 <= c < grid.Length1 ==> grid[r, c] <= old(grid[r, c])
      ensures old(|wolves|) <= |wolves| <= 2 * old(|wolves|)
      ensures forall k :: 0 <= k < |wolves| ==> OnBoard(wolves[k])
      ensures old(|flock|) <= |hunted| <= 2 * old(|flock|)
      ensures |prey| <= old(|wolves|)
      ensures forall t :: 0 <= t < |prey| ==> prey[t] < |hunted|
      ensures ok ==> |flock| == |hunted| - |prey|
      ensures ok ==> StoresNonNegative(flock) && forall k :: 0 <= k < |flock| ==> OnBoard(flock[k])
      ensures |spots| == |found|
      ensures forall j :: 0 <= j < |spots| ==> spots[j] == Landing(states, sheepCoins, j) && OnBoard(spots[j])
      ensures forall j :: 0 <= j < |spots| ==>
                && found[j] <= old(Cell(spots[j]))
                && (Unvisited(spots[..j], spots[j].y, spots[j].x) ==> found[j] == old(Cell(spots[j])))
      ensures forall r, c :: 0 <= r < grid.Length0 && 0 <= c < grid.Length1 && Unvisited(spots, r, c)
                             ==> grid[r, c] == old(grid[r, c])
      ensures forall j :: 0 <= j < |spots| ==>
                found[j] == Grazes(old(Cell(spots[j])), Visits(spots[..j], spots[j].y, spots[j].x))
      ensures forall r, c :: 0 <= r < grid.Length0 && 0 <= c < grid.Length1
                             ==> grid[r, c] == Grazes(old(grid[r, c]), Visits(spots, r, c))
    {
      states, found, spots := ShuffleAndGraze(flockDraws, wolfDraws, sheepCoins, neighbourhood, sheepThreshold);
      // maincode.py reads flock[0] here, which needs a non-empty flock.
      assert |flock| > 0;
      hunted := flock;
      ok, prey, packs, hits := HuntAndRemove(wolfCoins, wolfThreshold);
    }
  }

  /** Every sheep left after the deletions was one of the hunted flock, so it
      keeps its range and its non-negative store. */
  lemma SurvivorsStayInRange(hunted: seq<Agent>, survivors: seq<Agent>)
    requires forall e :: e in survivors ==> e in hunted
    requires StoresNonNegative(hunted) && forall k :: 0 <= k < |hunted| ==> OnBoard(hunted[k])
    ensures StoresNonNegative(survivors) && forall k :: 0 <= k < |survivors| ==> OnBoard(survivors[k])
  {
    forall k | 0 <= k < |survivors|
      ensures survivors[k].store >= 0.0 && OnBoard(survivors[k])
    {
      assert survivors[k] in hunted;
    }
  }

  /** One sheep eating at `p` takes a grid grazed from `g0` by `spots`
      (held in `before`) to one grazed by `spots + [p]`; what it found is its
      cell grazed by the earlier visits. */
  lemma GrazedStep(w: World, g0: seq<seq<real>>, before: seq<seq<real>>, spots: seq<Agent>, p: Agent, f: real)
    requires w.Valid() && OnBoard(p)
    requires |g0| == |before| == w.grid.Length0
    requires forall r :: 0 <= r < |g0| ==> |g0[r]| == |before[r]| == w.grid.Length1
    requires forall r, c :: 0 <= r < w.grid.Length0 && 0 <= c < w.grid.Length1
                            ==> before[r][c] == Grazes(g0[r][c], Visits(spots, r, c))
    requires f == before[p.y][p.x] && w.grid[p.y, p.x] == Leftover(f)
    requires forall r, c :: (0 <= r < w.grid.Length0 && 0 <= c < w.grid.Length1 && (r != p.y || c != p.x))
                            ==> w.grid[r, c] == before[r][c]
    ensures w.GrazedFrom(g0, spots + [p])
    ensures f == Grazes(At(g0, p), Visits(spots, p.y, p.x))
  {
    forall r, c | 0 <= r < w.grid.Length0 && 0 <= c < w.grid.Length1
      ensures w.grid[r, c] == Grazes(g0[r][c], Visits(spots + [p], r, c))
    {
      VisitsExtend(spots, p, r, c);
    }
  }

  /** Reordering a list keeps every store non-negative. */
  lemma PermutationKeepsStores(s: seq<Agent>, r: seq<Agent>)
    requires multiset(r) == multiset(s)
    requires StoresNonNegative(s)
    ensures StoresNonNegative(r)
  {
    forall k | 0 <= k < |r|
      ensures r[k].store >= 0.0
    {
      assert r[k] in multiset(s);
    }
  }
}
