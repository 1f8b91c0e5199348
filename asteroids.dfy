/**
 * The asteroids game's bookkeeping of asteroids, bullets and score. Positions, sizes, rotations
 * and speeds are floating point and random; an object's `body` stands for all of them, the
 * collision tests are parameters over bodies and bullet slots, and the random draws are
 * parameters too. What is modelled is what happens to the asteroid list, the bullet slots and
 * the score.
 */
module Asteroids {
  import opened Wrappers

  /** `GameData::AsteroidLvl`, an `enum class` over `int`. */
  const NONE: int := -1
  const SMALL: int := 0
  const MEDIUM: int := 1
  const LARGE: int := 2
  const MAX: int := 3

  const MaxDefaultAsteroids: nat := 15
  const MaxBullets: nat := 40
  /** `static_cast<size_t>(MAX_DEFAULT_ASTEROIDS * 1.5f)`: 22.5 truncated. */
  const RefillCount: nat := 22

  /**
   * `operator--(AsteroidLvl&)`: one level down, except that stepping down onto `NONE` lands on
   * level 0 instead, so a level never decreases into `NONE`.
   */
  function Decremented(c: int): (r: int)
    ensures r != NONE
    ensures c == LARGE ==> r == MEDIUM
    ensures c == MEDIUM ==> r == SMALL
    ensures c == SMALL ==> r == SMALL
    ensures c != SMALL ==> r == c - 1
  {
    if c - 1 == NONE then 0 else c - 1
  }

  /** `k` decrements in a row. */
  function DecrementedTimes(c: int, k: nat): int
    decreases k
  {
    if k == 0 then c else Decremented(DecrementedTimes(c, k - 1))
  }

  /**
   * From any named level, enough decrements reach `SMALL`, after which the level stays there:
   * `k` decrements from level `c` give `c - k`, floored at `SMALL`.
   */
  lemma {:induction false} DecrementedTimesFloors(c: int, k: nat)
    requires SMALL <= c <= MAX
    ensures DecrementedTimes(c, k) == if k <= c then c - k else SMALL
    ensures SMALL <= DecrementedTimes(c, k) <= c
    decreases k
  {
    if k > 0 {
      DecrementedTimesFloors(c, k - 1);
    }
  }

  /** `GameData::GameObject` as far as the model sees it. `body` stands for the floating-point state. */
  datatype GameObject = GameObject(hidden: bool, body: int)

  /** `GameData::Asteroid`: a game object with a level. */
  datatype Asteroid = Asteroid(hidden: bool, body: int, lvl: int)

  /** Every asteroid has one of the three real levels. */
  predicate Levelled(s: seq<Asteroid>) {
    forall k :: 0 <= k < |s| ==> SMALL <= s[k].lvl <= LARGE
  }

  /**
   * The number of bullet hits an asteroid of level `lvl` takes until it and all its fragments are
   * gone: a small one goes with one hit; a larger one takes one hit and leaves two asteroids of
   * the level below.
   */
  function Weight(lvl: int): (r: nat)
    requires SMALL <= lvl <= LARGE
    ensures lvl == SMALL ==> r == 1
    ensures lvl != SMALL ==> r == 2 * Weight(Decremented(lvl)) + 1
  {
    if lvl == SMALL then 1 else if lvl == MEDIUM then 3 else 7
  }

  /** The hits the whole list of asteroids still takes. */
  function TotalWeight(s: seq<Asteroid>): nat
    requires Levelled(s)
  {
    if s == [] then 0 else Weight(s[0].lvl) + TotalWeight(s[1..])
  }

  lemma {:induction false} TotalWeightAppend(a: seq<Asteroid>, b: seq<Asteroid>)
    requires Levelled(a) && Levelled(b)
    ensures Levelled(a + b)
    ensures TotalWeight(a + b) == TotalWeight(a) + TotalWeight(b)
  {
    if a == [] {
      assert a + b == b;
    } else {
      assert (a + b)[0] == a[0];
      assert (a + b)[1..] == a[1..] + b;
      TotalWeightAppend(a[1..], b);
    }
  }

  /** The weight of a list is that of its parts around position `i`. */
  lemma TotalWeightAt(s: seq<Asteroid>, i: nat)
    requires Levelled(s) && i < |s|
    ensures TotalWeight(s) == TotalWeight(s[..i]) + Weight(s[i].lvl) + TotalWeight(s[i + 1..])
  {
    assert s == s[..i] + s[i..];
    TotalWeightAppend(s[..i], s[i..]);
    assert s[i..][1..] == s[i + 1..];
  }

  /** The number of bullet slots whose bullet is in flight. */
  function Visible(s: seq<GameObject>): nat {
    if s == [] then 0 else (if s[0].hidden then 0 else 1) + Visible(s[1..])
  }

  /** Hiding a bullet in flight takes exactly one bullet out of flight. */
  lemma {:induction false} VisibleHide(s: seq<GameObject>, j: nat)
    requires j < |s| && !s[j].hidden
    ensures Visible(s[j := s[j].(hidden := true)]) + 1 == Visible(s)
  {
    if j > 0 {
      VisibleHide(s[1..], j - 1);
      assert s[j := s[j].(hidden := true)][1..] == s[1..][j - 1 := s[j].(hidden := true)];
    }
  }

  /**
   * The bullet an asteroid of body `body` is hit by: the first slot, in array order, holding a
   * bullet in flight that collides with it (the scan of `CHECK BULLETS` stops there).
   */
  function FirstHit(bullets: seq<GameObject>, body: int, collides: (int, nat) -> bool, from: nat): (r: Option<nat>)
    requires from <= |bullets|
    ensures r.Some? ==> from <= r.value < |bullets| && !bullets[r.value].hidden && collides(body, r.value)
    ensures r.Some? ==> forall k :: from <= k < r.value ==> bullets[k].hidden || !collides(body, k)
    ensures r.None? ==> forall k :: from <= k < |bullets| ==> bullets[k].hidden || !collides(body, k)
    decreases |bullets| - from
  {
    if from == |bullets| then None
    else if !bullets[from].hidden && collides(body, from) then Some(from)
    else FirstHit(bullets, body, collides, from + 1)
  }

  /**
   * The asteroid list after asteroid `i` is hit: a small asteroid is erased; a larger one goes a
   * level down and a fresh, visible asteroid of that same level, of body `spawned`, is appended.
   */
  function AfterHit(s: seq<Asteroid>, i: nat, spawned: int): (r: seq<Asteroid>)
    requires i < |s|
    ensures s[i].lvl == SMALL ==> |r| + 1 == |s| && r[..i] == s[..i] && r[i..] == s[i + 1..]
    ensures s[i].lvl != SMALL ==> |r| == |s| + 1 && r[..i] == s[..i] && r[i + 1..|s|] == s[i + 1..]
    ensures s[i].lvl != SMALL ==> r[i] == s[i].(lvl := Decremented(s[i].lvl))
    ensures s[i].lvl != SMALL ==> r[|s|] == Asteroid(false, spawned, Decremented(s[i].lvl))
  {
    if s[i].lvl == SMALL then s[..i] + s[i + 1..]
    else
      var lowered := s[i].(lvl := Decremented(s[i].lvl));
      s[i := lowered] + [Asteroid(false, spawned, lowered.lvl)]
  }

  /**
   * Each hit takes exactly one from the hits the asteroids still take, and every asteroid keeps a
   * real level: so the score plus that total is the same before and after any number of hits.
   */
  lemma AfterHitWeight(s: seq<Asteroid>, i: nat, spawned: int)
    requires Levelled(s) && i < |s|
    ensures Levelled(AfterHit(s, i, spawned))
    ensures TotalWeight(AfterHit(s, i, spawned)) + 1 == TotalWeight(s)
  {
    TotalWeightAt(s, i);
    if s[i].lvl == SMALL {
      ErasedWeight(s, i);
    } else {
      SplitWeight(s, i, spawned);
    }
  }

  lemma ErasedWeight(s: seq<Asteroid>, i: nat)
    requires Levelled(s) && i < |s|
    ensures Levelled(s[..i] + s[i + 1..])
    ensures TotalWeight(s[..i] + s[i + 1..]) == TotalWeight(s[..i]) + TotalWeight(s[i + 1..])
  {
    assert Levelled(s[..i]) && Levelled(s[i + 1..]) by {
      forall k | 0 <= k < i ensures s[..i][k] == s[k] { }
      forall k | i + 1 <= k < |s| ensures s[i + 1..][k - i - 1] == s[k] { }
    }
    TotalWeightAppend(s[..i], s[i + 1..]);
  }

  lemma SplitWeight(s: seq<Asteroid>, i: nat, spawned: int)
    requires Levelled(s) && i < |s| && s[i].lvl != SMALL
    ensures Levelled(AfterHit(s, i, spawned))
    ensures TotalWeight(AfterHit(s, i, spawned)) == TotalWeight(s[..i]) + 2 * Weight(Decremented(s[i].lvl)) + TotalWeight(s[i + 1..])
  {
    var lowered := s[i].(lvl := Decremented(s[i].lvl));
    var spawnedOne := Asteroid(false, spawned, lowered.lvl);
    var front, back := s[..i], [lowered] + s[i + 1..];
    assert Levelled(front) && Levelled(s[i + 1..]) by {
      forall k | 0 <= k < i ensures s[..i][k] == s[k] { }
      forall k | i + 1 <= k < |s| ensures s[i + 1..][k - i - 1] == s[k] { }
    }
    assert AfterHit(s, i, spawned) == (front + back) + [spawnedOne];
    TotalWeightAppend([lowered], s[i + 1..]);
    TotalWeightAppend(front, back);
    TotalWeightAppend(front + back, [spawnedOne]);
    assert TotalWeight([spawnedOne]) == Weight(spawnedOne.lvl);
    assert TotalWeight([lowered]) == Weight(lowered.lvl);
  }

  /** Hiding an asteroid keeps it in the list, and so keeps the hits the list takes. */
  lemma HiddenWeight(s: seq<Asteroid>, i: nat)
    requires Levelled(s) && i < |s|
    ensures Levelled(s[i := s[i].(hidden := true)])
    ensures TotalWeight(s[i := s[i].(hidden := true)]) == TotalWeight(s)
  {
    var t := s[i := s[i].(hidden := true)];
    TotalWeightAt(s, i);
    TotalWeightAt(t, i);
    assert t[..i] == s[..i];
    assert t[i + 1..] == s[i + 1..];
  }

  /**
   * `count` asteroids as the source deals them, at the start of a game and at a refill: each
   * visible, with a random body and the level `rand() % MAX`.
   */
  function Dealt(count: nat, draws: nat -> nat, bodies: nat -> int): (r: seq<Asteroid>)
    ensures |r| == count && Levelled(r)
    ensures forall k :: 0 <= k < |r| ==> r[k] == Asteroid(false, bodies(k), draws(k) % MAX)
  {
    seq(count, k requires 0 <= k => Asteroid(false, bodies(k), draws(k) % MAX))
  }

  /** The asteroids list after a refill: `static_cast<size_t>(15 * 1.5f)` = 22 dealt asteroids. */
  function Refilled(draws: nat -> nat, bodies: nat -> int): (r: seq<Asteroid>)
    ensures |r| == RefillCount && Levelled(r) && TotalWeight(r) >= RefillCount
    ensures forall k :: 0 <= k < |r| ==> !r[k].hidden
  {
    var r := Dealt(RefillCount, draws, bodies);
    AtLeastOneHitEach(r);
    r
  }

  /** Every asteroid takes at least one hit, so a list takes at least as many as its length. */
  lemma {:induction false} AtLeastOneHitEach(s: seq<Asteroid>)
    requires Levelled(s)
    ensures TotalWeight(s) >= |s|
  {
    if s != [] {
      AtLeastOneHitEach(s[1..]);
    }
  }

  /** The state the asteroid loop works on, as a value: asteroids, bullet slots, score, player. */
  datatype Frame = Frame(asteroids: seq<Asteroid>, bullets: seq<GameObject>, score: int, playerHidden: bool)

  /**
   * One visit of the asteroid loop at asteroid `i`: when it touches the player, it and the
   * player are hidden; then the first colliding bullet in flight, if any, is hidden, the score
   * goes up by one and the asteroid is split or erased as `AfterHit` says. Also whether the
   * asteroid left slot `i`.
   */
  function Visit(f: Frame, i: nat, touchesPlayer: int -> bool, collides: (int, nat) -> bool, spawn: int -> int): (r: (Frame, bool))
    requires i < |f.asteroids|
  {
    var a := f.asteroids[i];
    var touched := touchesPlayer(a.body);
    var s1 := if touched then f.asteroids[i := a.(hidden := true)] else f.asteroids;
    match FirstHit(f.bullets, a.body, collides, 0)
    case None => (Frame(s1, f.bullets, f.score, f.playerHidden || touched), false)
    case Some(j) =>
      (Frame(AfterHit(s1, i, spawn(a.body)), f.bullets[j := f.bullets[j].(hidden := true)], f.score + 1, f.playerHidden || touched),
       a.lvl == SMALL)
  }

  /**
   * A visit keeps every level real and keeps both sums: a hit hides one bullet in flight and
   * takes one from the hits the asteroids still take, while adding one to the score. A hit
   * takes a bullet out of flight; no hit keeps the list's length; only a hit erases, and then
   * slot `i` is at most the new length; otherwise it is still inside the list. A hidden player
   * stays hidden.
   */
  lemma VisitKeepsSums(f: Frame, i: nat, touchesPlayer: int -> bool, collides: (int, nat) -> bool, spawn: int -> int)
    requires Levelled(f.asteroids) && i < |f.asteroids|
    ensures var (g, erased) := Visit(f, i, touchesPlayer, collides, spawn);
      var hit := FirstHit(f.bullets, f.asteroids[i].body, collides, 0).Some?;
      && Levelled(g.asteroids)
      && g.score + TotalWeight(g.asteroids) == f.score + TotalWeight(f.asteroids)
      && g.score + Visible(g.bullets) == f.score + Visible(f.bullets)
      && (hit ==> Visible(g.bullets) < Visible(f.bullets))
      && (!hit ==> Visible(g.bullets) == Visible(f.bullets) && |g.asteroids| == |f.asteroids|)
      && (erased ==> hit && i <= |g.asteroids|)
      && (!erased ==> i < |g.asteroids|)
      && (f.playerHidden ==> g.playerHidden)
  {
    var a := f.asteroids[i];
    var s1 := if touchesPlayer(a.body) then f.asteroids[i := a.(hidden := true)] else f.asteroids;
    HiddenWeight(f.asteroids, i);
    var first := FirstHit(f.bullets, a.body, collides, 0);
    if first.Some? {
      AfterHitWeight(s1, i, spawn(a.body));
      VisibleHide(f.bullets, first.value);
    }
  }

  /**
   * `PROCESS ASTEROIDS` from slot `i` on: hidden asteroids are skipped and visible ones visited,
   * including those appended on the way. After an erase the next asteroid has moved into slot
   * `i`, which the source's `--i` then `++i` visits next. Every hit takes a bullet out of flight,
   * and without a hit the list keeps its length, so the loop ends.
   */
  function Processed(f: Frame, i: nat, touchesPlayer: int -> bool, collides: (int, nat) -> bool, spawn: int -> int): (r: Frame)
    requires Levelled(f.asteroids) && i <= |f.asteroids|
    decreases Visible(f.bullets), |f.asteroids| - i
  {
    if i == |f.asteroids| then f
    else if f.asteroids[i].hidden then Processed(f, i + 1, touchesPlayer, collides, spawn)
    else
      VisitKeepsSums(f, i, touchesPlayer, collides, spawn);
      var (g, erased) := Visit(f, i, touchesPlayer, collides, spawn);
      if erased then Processed(g, i, touchesPlayer, collides, spawn)
      else Processed(g, i + 1, touchesPlayer, collides, spawn)
  }

  /**
   * The asteroid loop keeps both sums, whatever the collisions: the score plus the hits the
   * asteroids still take, and the score plus the bullets in flight; every level stays real and
   * a hidden player stays hidden.
   */
  lemma {:induction false} ProcessedKeepsSums(f: Frame, i: nat, touchesPlayer: int -> bool, collides: (int, nat) -> bool, spawn: int -> int)
    requires Levelled(f.asteroids) && i <= |f.asteroids|
    ensures var g := Processed(f, i, touchesPlayer, collides, spawn);
      && Levelled(g.asteroids)
      && g.score + TotalWeight(g.asteroids) == f.score + TotalWeight(f.asteroids)
      && g.score + Visible(g.bullets) == f.score + Visible(f.bullets)
      && (f.playerHidden ==> g.playerHidden)
    decreases Visible(f.bullets), |f.asteroids| - i
  {
    if i == |f.asteroids| {
    } else if f.asteroids[i].hidden {
      ProcessedKeepsSums(f, i + 1, touchesPlayer, collides, spawn);
    } else {
      VisitKeepsSums(f, i, touchesPlayer, collides, spawn);
      var (g, erased) := Visit(f, i, touchesPlayer, collides, spawn);
      if erased {
        ProcessedKeepsSums(g, i, touchesPlayer, collides, spawn);
      } else {
        ProcessedKeepsSums(g, i + 1, touchesPlayer, collides, spawn);
      }
    }
  }

  /**
   * Since every asteroid takes at least one hit, the score a frame can add is bounded by both the
   * hits the asteroids take and the bullets in flight.
   */
  lemma ScoreBounded(f: Frame, touchesPlayer: int -> bool, collides: (int, nat) -> bool, spawn: int -> int)
    requires Levelled(f.asteroids)
    ensures var g := Processed(f, 0, touchesPlayer, collides, spawn);
      && g.score - f.score <= TotalWeight(f.asteroids)
      && g.score - f.score <= Visible(f.bullets)
  {
    ProcessedKeepsSums(f, 0, touchesPlayer, collides, spawn);
  }

  /** The part of `GameData` the asteroid loop works on. */
  class GameData {
    const bullets: array<GameObject>
    var asteroids: seq<Asteroid>
    var score: int
    var playerHidden: bool

    ghost predicate Valid()
      reads this
    {
      bullets.Length == MaxBullets && Levelled(asteroids)
    }

    /** The state as a value. */
    ghost function Snapshot(): Frame
      reads this, bullets
    {
      Frame(asteroids, bullets[..], score, playerHidden)
    }

    /**
     * `new GameData` followed by `InitGamedata`: `MAX_DEFAULT_ASTEROIDS` dealt asteroids, every
     * bullet slot empty, the player visible and a score of 0.
     */
    constructor Init(draws: nat -> nat, bodies: nat -> int)
      ensures Valid() && fresh(bullets) && score == 0 && !playerHidden
      ensures asteroids == Dealt(MaxDefaultAsteroids, draws, bodies)
      ensures forall j :: 0 <= j < bullets.Length ==> bullets[j].hidden
    {
      bullets := new GameObject[MaxBullets](j => GameObject(true, 0));
      asteroids := Dealt(MaxDefaultAsteroids, draws, bodies);
      score := 0;
      playerHidden := false;
    }

    /**
     * The refill at the top of the asteroid processing: an empty list is resized to 22 entries and
     * each is given a random body and level and made visible; a non-empty list is left alone.
     */
    method RefillIfEmpty(draws: nat -> nat, bodies: nat -> int)
      requires Valid()
      modifies this
      ensures Valid() && score == old(score) && playerHidden == old(playerHidden)
      ensures asteroids == if old(asteroids) == [] then Refilled(draws, bodies) else old(asteroids)
    {
      if asteroids == [] {
        asteroids := seq(RefillCount, k => Asteroid(false, 0, SMALL));
        for k := 0 to RefillCount
          invariant |asteroids| == RefillCount && score == old(score) && playerHidden == old(playerHidden)
          invariant forall m :: 0 <= m < k ==> asteroids[m] == Refilled(draws, bodies)[m]
          invariant forall m :: k <= m < RefillCount ==> asteroids[m] == Asteroid(false, 0, SMALL)
        {
          asteroids := asteroids[k := Asteroid(false, bodies(k), draws(k) % MAX)];
        }
        assert asteroids == Refilled(draws, bodies);
      }
    }

    /**
     * `CHECK BULLETS` for asteroid `i`: the first colliding bullet in flight, if any, is hidden,
     * the score goes up by one and the asteroid is split or erased as `AfterHit` says. Returns
     * whether there was a hit and whether it erased the asteroid.
     */
    method CheckBullets(i: nat, collides: (int, nat) -> bool, spawn: int -> int) returns (hit: bool, erased: bool)
      requires Valid() && i < |asteroids|
      modifies this, bullets
      ensures Valid() && playerHidden == old(playerHidden)
      ensures var first := FirstHit(old(bullets[..]), old(asteroids)[i].body, collides, 0);
        && (hit <==> first.Some?)
        && (erased <==> hit && old(asteroids)[i].lvl == SMALL)
        && (hit ==> bullets[..] == old(bullets[..])[first.value := old(bullets[first.value]).(hidden := true)])
        && (hit ==> score == old(score) + 1)
        && (hit ==> asteroids == AfterHit(old(asteroids), i, spawn(old(asteroids)[i].body)))
        && (!hit ==> bullets[..] == old(bullets[..]) && score == old(score) && asteroids == old(asteroids))
    {
      var asteroid := asteroids[i];
      hit, erased := false, false;
      var j := 0;
      while j < bullets.Length
        invariant j <= bullets.Length
        invariant FirstHit(bullets[..], asteroid.body, collides, 0) == FirstHit(bullets[..], asteroid.body, collides, j)
        modifies {}
      {
        if !bullets[j].hidden && collides(asteroid.body, j) {
          break;
        }
        j := j + 1;
      }
      if j < bullets.Length {
        bullets[j] := bullets[j].(hidden := true);
        score := score + 1;
        AfterHitWeight(asteroids, i, spawn(asteroid.body));
        hit := true;
        erased := asteroid.lvl == SMALL;
        asteroids := AfterHit(asteroids, i, spawn(asteroid.body));
      }
    }

    /** The player test of the asteroid loop: an asteroid touching the player is hidden, and so is the player. */
    method TouchPlayer(i: nat, touchesPlayer: int -> bool)
      requires Valid() && i < |asteroids|
      modifies this
      ensures Valid() && score == old(score)
      ensures var touched := touchesPlayer(old(asteroids)[i].body);
        && asteroids == (if touched then old(asteroids)[i := old(asteroids)[i].(hidden := true)] else old(asteroids))
        && playerHidden == (old(playerHidden) || touched)
    {
      if touchesPlayer(asteroids[i].body) {
        HiddenWeight(asteroids, i);
        asteroids := asteroids[i := asteroids[i].(hidden := true)];
        playerHidden := true;
      }
    }

    /**
     * One visit of the asteroid loop at a visible asteroid `i`, as `Visit` gives it: the touch
     * test against the player, then `CHECK BULLETS`.
     */
    method VisitAsteroid(i: nat, touchesPlayer: int -> bool, collides: (int, nat) -> bool, spawn: int -> int)
      returns (erased: bool)
      requires Valid() && i < |asteroids| && !asteroids[i].hidden
      modifies this, bullets
      ensures Valid()
      ensures (Snapshot(), erased) == Visit(old(Snapshot()), i, touchesPlayer, collides, spawn)
    {
      ghost var f := Snapshot();
      TouchPlayer(i, touchesPlayer);
      ghost var s1, hidden1 := asteroids, playerHidden;
      var hit;
      hit, erased := CheckBullets(i, collides, spawn);
      ghost var first := FirstHit(f.bullets, f.asteroids[i].body, collides, 0);
      if hit {
        assert Snapshot() == Frame(AfterHit(s1, i, spawn(f.asteroids[i].body)),
                                   f.bullets[first.value := f.bullets[first.value].(hidden := true)], f.score + 1, hidden1);
      } else {
        assert Snapshot() == Frame(s1, f.bullets, f.score, hidden1);
      }
    }

    /**
     * `PROCESS ASTEROIDS`: refills an empty list, then runs the asteroid loop, ending in the
     * state `Processed` gives. By `ProcessedKeepsSums` the score plus the hits left, and the
     * score plus the bullets in flight, are the same as after the refill.
     */
    method ProcessAsteroids(draws: nat -> nat, bodies: nat -> int, touchesPlayer: int -> bool,
                            collides: (int, nat) -> bool, spawn: int -> int)
      requires Valid()
      modifies this, bullets
      ensures Valid()
      ensures var start := old(Snapshot()).(asteroids := if old(asteroids) == [] then Refilled(draws, bodies) else old(asteroids));
        Snapshot() == Processed(start, 0, touchesPlayer, collides, spawn)
    {
      RefillIfEmpty(draws, bodies);
      ghost var target := Processed(Snapshot(), 0, touchesPlayer, collides, spawn);
      var i := 0;
      while i < |asteroids|
        invariant Valid() && i <= |asteroids|
        invariant Processed(Snapshot(), i, touchesPlayer, collides, spawn) == target
        decreases Visible(bullets[..]), |asteroids| - i
      {
        if asteroids[i].hidden {
          i := i + 1;
          continue;
        }
        ghost var f := Snapshot();
        VisitKeepsSums(f, i, touchesPlayer, collides, spawn);
        var erased := VisitAsteroid(i, touchesPlayer, collides, spawn);
        if !erased {
          i := i + 1;
        }
      }
    }
  }
}
