/**
 * handle_collision: how a colliding pair of slots changes the bodies, chosen
 * by the type tags of the two bodies, and the growth of the body slots by a
 * split. The bodies are a value here; the simulation applies the same
 * changes in place.
 */
module Resolution {
  import opened Bodies
  import opened Wrappers
  import Support
  import Text
  import Reports

  /**
   * The bodies and the counters a collision can change: the slots, how many
   * of them are in use (`number_active_bodies`, a high-water mark), and the
   * running numbers used to name new asteroids and comets.
   */
  datatype World = World(bodies: seq<Body>, count: nat, numAsteroids: int, numComets: int) {
    predicate Valid() {
      count <= |bodies|
    }
  }

  /**
   * What the C code would do that the model does not follow: a pair that is
   * not two distinct slots in use (every caller passes `i < j` below the
   * count), growth without free slots (the source writes past the end of its
   * array), an elastic update that divides by zero.
   */
  datatype Fault = BadPair | NoRoom | NotFinite

  /** The name the split gives its `k`-th new asteroid: "ASTEROIDS" and the running number. */
  function AsteroidName(number: int): string {
    "ASTEROIDS" + Text.IntToString(number)
  }

  /** The names the loop before the splits hands out, from the running number `first` on. */
  function SplitNames(first: int): (names: seq<string>)
    ensures |names| == 4
  {
    seq(4, q => AsteroidName(first + q))
  }

  /** The loop before the splits: slots `n .. n + 3` are named after the running numbers `first .. first + 3`. */
  function NameSplitSlots(bodies: seq<Body>, n: int, first: int): (r: seq<Body>)
    requires 0 <= n && n + 4 <= |bodies|
    ensures |r| == |bodies|
  {
    NameFirst(bodies, n, SplitNames(first), 4)
  }

  /** The first `k` turns of that loop: slot `n + m` gets `names[m]` for `m < k`. */
  function NameFirst(bodies: seq<Body>, n: int, names: seq<string>, k: nat): (r: seq<Body>)
    requires 0 <= n && n + k <= |bodies| && k <= |names|
    ensures |r| == |bodies|
    decreases k
  {
    if k == 0 then bodies
    else NameFirst(bodies, n, names, k - 1)[n + k - 1 := bodies[n + k - 1].(name := names[k - 1])]
  }

  /** After `k` turns slot `m` carries its new name if it is one of `n .. n + k - 1` and is as it was otherwise. */
  lemma {:induction false} NamedAt(bodies: seq<Body>, n: int, names: seq<string>, k: nat, m: int)
    requires 0 <= n && n + k <= |bodies| && k <= |names| && 0 <= m < |bodies|
    ensures NameFirst(bodies, n, names, k)[m] == if n <= m < n + k then bodies[m].(name := names[m - n]) else bodies[m]
    decreases k
  {
    if k > 0 {
      NamedAt(bodies, n, names, k - 1, m);
    }
  }

  /** split_asteroid(&bodies[parent], &bodies[slot], direction) on distinct slots. */
  function SplitInto(bodies: seq<Body>, parent: int, slot: int, direction: bool): (r: seq<Body>)
    requires 0 <= parent < |bodies| && 0 <= slot < |bodies| && parent != slot
    ensures |r| == |bodies|
    ensures r[parent] == Support.Split(bodies[parent], bodies[slot], direction).0
    ensures r[slot] == Support.Split(bodies[parent], bodies[slot], direction).1
  {
    var (p, c) := Support.Split(bodies[parent], bodies[slot], direction);
    bodies[parent := p][slot := c]
  }

  /**
   * The four splits after two asteroids shatter: the children of `i` go to
   * slots `n` (forwards) and `n + 1` (backwards), those of `j` to `n + 2` and
   * `n + 3`.
   */
  function SplitFour(bodies: seq<Body>, i: int, j: int, n: int): (r: seq<Body>)
    requires 0 <= i < n && 0 <= j < n && i != j && n + 4 <= |bodies|
    ensures |r| == |bodies|
  {
    var s1 := SplitInto(bodies, i, n, true);
    var s2 := SplitInto(s1, i, n + 1, false);
    var s3 := SplitInto(s2, j, n + 2, true);
    SplitInto(s3, j, n + 3, false)
  }

  /** Writes the two bodies of a pair back to their slots, `i` first. */
  function Put(w: World, i: int, bi: Body, j: int, bj: Body): (r: World)
    requires 0 <= i < |w.bodies| && 0 <= j < |w.bodies|
    ensures |r.bodies| == |w.bodies| && r.count == w.count
  {
    w.(bodies := w.bodies[i := bi][j := bj])
  }

  /**
   * The split branch after the pair is written back: the naming loop over
   * slots `count .. count + 3`, the four splits, and the counters rise by 4.
   */
  function Shatter(w: World, i: int, j: int): (r: World)
    requires 0 <= i < w.count && 0 <= j < w.count && i != j && w.count + 4 <= |w.bodies|
    ensures r.Valid() && |r.bodies| == |w.bodies| && r.count == w.count + 4
    ensures r.numAsteroids == w.numAsteroids + 4 && r.numComets == w.numComets
  {
    var n := w.count;
    World(SplitFour(NameSplitSlots(w.bodies, n, w.numAsteroids), i, j, n), n + 4, w.numAsteroids + 4, w.numComets)
  }

  /**
   * handle_collision(i, j), with `draw` the value `rand()` returns if the
   * pair is two asteroids. The branches are tried in the source's order; the
   * third one tests `bodies[j] is ASTEROID || bodies[i] is COMET`, so a comet
   * at `j` hit by a large body at `i` reaches no branch.
   */
  function Handle(w: World, i: int, j: int, draw: nat): Result<World, Fault>
    requires w.Valid()
  {
    if !(0 <= i < w.count && 0 <= j < w.count) || i == j then Err(BadPair)
    else
      var bi, bj := w.bodies[i], w.bodies[j];
      if bi.kind == Asteroid && bj.kind == Asteroid then AsteroidPair(w, i, j, draw)
      else if IsSmall(bi.kind) && IsLarge(bj.kind) then
        var (large, small) := Support.PlanetAsteroid(bj, bi);
        Ok(Put(w, j, large, i, small))
      else if IsLarge(bi.kind) && (bj.kind == Asteroid || bi.kind == Comet) then
        var (large, small) := Support.PlanetAsteroid(bi, bj);
        Ok(Put(w, i, large, j, small))
      else if bi.kind == Comet && bj.kind == Comet then
        var (c1, c2) := Support.CometComet(bi, bj);
        Ok(Put(w, i, c1, j, c2))
      else if bi.kind == Asteroid && bj.kind == Comet then
        match Support.AsteroidComet(bi, bj)
        case None => Err(NotFinite)
        case Some((a, c)) => Ok(Put(w, i, a, j, c))
      else if bi.kind == Comet && bj.kind == Asteroid then
        match Support.AsteroidComet(bj, bi)
        case None => Err(NotFinite)
        case Some((a, c)) => Ok(Put(w, j, a, i, c))
      else Ok(w)
  }

  /** The first branch: two asteroids bounce, or shatter into the next four slots when there is room. */
  function AsteroidPair(w: World, i: int, j: int, draw: nat): Result<World, Fault>
    requires w.Valid() && 0 <= i < w.count && 0 <= j < w.count && i != j
  {
    match Support.AsteroidAsteroid(w.bodies[i], w.bodies[j], draw)
    case None => Err(NotFinite)
    case Some(bounce) => Bounced(w, i, j, bounce)
  }

  /** The pair written back after a finite bounce, and shattered when the bounce says so. */
  function Bounced(w: World, i: int, j: int, bounce: Support.Bounce): Result<World, Fault>
    requires w.Valid() && 0 <= i < w.count && 0 <= j < w.count && i != j
  {
    if !bounce.split then Ok(Put(w, i, bounce.first, j, bounce.second))
    else if w.count + 4 > |w.bodies| then Err(NoRoom)
    else Ok(Shatter(Put(w, i, bounce.first, j, bounce.second), i, j))
  }

  /** Every outcome keeps the slots, keeps the world valid and grows the count by 0 or 4 (4 only in a split). */
  lemma {:induction false} HandleGrowth(w: World, i: int, j: int, draw: nat)
    requires w.Valid()
    ensures Handle(w, i, j, draw).Ok? ==>
      var r := Handle(w, i, j, draw).value;
      r.Valid() && |r.bodies| == |w.bodies| &&
      (r.count == w.count || (r.count == w.count + 4 && w.bodies[i].kind == Asteroid == w.bodies[j].kind && draw % 10 == 0)) &&
      r.numComets == w.numComets &&
      r.numAsteroids == w.numAsteroids + (r.count - w.count)
  {
  }

  /** The slots other than `i` and `j`, and the counters, are as they were. */
  predicate OnlyPairChanged(w: World, r: World, i: int, j: int) {
    |r.bodies| == |w.bodies| && r.count == w.count &&
    r.numAsteroids == w.numAsteroids && r.numComets == w.numComets &&
    forall k :: 0 <= k < |w.bodies| && k != i && k != j ==> r.bodies[k] == w.bodies[k]
  }

  /** An asteroid or a comet at `i` hitting a large body at `j` is absorbed into `j`. */
  lemma AbsorbedIntoSecond(w: World, i: int, j: int, draw: nat)
    requires w.Valid() && 0 <= i < w.count && 0 <= j < w.count
    requires IsSmall(w.bodies[i].kind) && IsLarge(w.bodies[j].kind)
    ensures Handle(w, i, j, draw).Ok?
    ensures var r := Handle(w, i, j, draw).value;
      OnlyPairChanged(w, r, i, j) &&
      (r.bodies[j], r.bodies[i]) == Support.PlanetAsteroid(w.bodies[j], w.bodies[i])
  {
  }

  /** A large body at `i` hitting an asteroid at `j` absorbs it. */
  lemma AbsorbedIntoFirst(w: World, i: int, j: int, draw: nat)
    requires w.Valid() && 0 <= i < w.count && 0 <= j < w.count
    requires IsLarge(w.bodies[i].kind) && w.bodies[j].kind == Asteroid
    ensures Handle(w, i, j, draw).Ok?
    ensures var r := Handle(w, i, j, draw).value;
      OnlyPairChanged(w, r, i, j) &&
      (r.bodies[i], r.bodies[j]) == Support.PlanetAsteroid(w.bodies[i], w.bodies[j])
  {
  }

  /**
   * A large body at `i` hitting a comet at `j` changes nothing, and neither
   * does a pair of large bodies: the comet is not absorbed the way it is the
   * other way round.
   */
  lemma LargeFirstUnchanged(w: World, i: int, j: int, draw: nat)
    requires w.Valid() && 0 <= i < w.count && 0 <= j < w.count
    requires i != j && IsLarge(w.bodies[i].kind) && (w.bodies[j].kind == Comet || IsLarge(w.bodies[j].kind))
    ensures Handle(w, i, j, draw) == Ok(w)
  {
  }

  /** The comet/large asymmetry: the same two bodies give different outcomes in the two orders. */
  lemma CometOrderMatters(w: World, i: int, j: int, draw: nat)
    requires w.Valid() && 0 <= i < w.count && 0 <= j < w.count
    requires w.bodies[i].kind == Comet && IsLarge(w.bodies[j].kind)
    ensures Handle(w, i, j, draw).Ok? && !Handle(w, i, j, draw).value.bodies[i].active
    ensures Handle(w, j, i, draw) == Ok(w)
  {
    AbsorbedIntoSecond(w, i, j, draw);
    LargeFirstUnchanged(w, j, i, draw);
  }

  /** Two comets both stop being active; nothing else changes. */
  lemma CometsDestroyed(w: World, i: int, j: int, draw: nat)
    requires w.Valid() && 0 <= i < w.count && 0 <= j < w.count && i != j
    requires w.bodies[i].kind == Comet && w.bodies[j].kind == Comet
    ensures Handle(w, i, j, draw).Ok?
    ensures var r := Handle(w, i, j, draw).value;
      OnlyPairChanged(w, r, i, j) &&
      r.bodies[i] == w.bodies[i].(active := false) && r.bodies[j] == w.bodies[j].(active := false)
  {
  }

  /** An asteroid and a comet, in either order: the asteroid bounces off the comet and the comet is destroyed. */
  lemma AsteroidMeetsComet(w: World, i: int, j: int, draw: nat, a: int, c: int)
    requires w.Valid() && 0 <= i < w.count && 0 <= j < w.count
    requires (a, c) == (i, j) || (a, c) == (j, i)
    requires w.bodies[a].kind == Asteroid && w.bodies[c].kind == Comet
    ensures Handle(w, i, j, draw).Ok? <==> Support.AsteroidComet(w.bodies[a], w.bodies[c]).Some?
    ensures Handle(w, i, j, draw).Ok? ==>
      var r := Handle(w, i, j, draw).value;
      OnlyPairChanged(w, r, i, j) &&
      (r.bodies[a], r.bodies[c]) == Support.AsteroidComet(w.bodies[a], w.bodies[c]).value
  {
  }

  /** Two asteroids that bounce: both take their elastic velocities; nothing else changes. */
  lemma AsteroidsBounce(w: World, i: int, j: int, draw: nat)
    requires w.Valid() && 0 <= i < w.count && 0 <= j < w.count && i != j
    requires w.bodies[i].kind == Asteroid && w.bodies[j].kind == Asteroid && draw % 10 != 0
    ensures Handle(w, i, j, draw).Ok? <==> Support.AsteroidAsteroid(w.bodies[i], w.bodies[j], draw).Some?
    ensures Handle(w, i, j, draw).Ok? ==>
      var r := Handle(w, i, j, draw).value;
      var b := Support.AsteroidAsteroid(w.bodies[i], w.bodies[j], draw).value;
      OnlyPairChanged(w, r, i, j) && r.bodies[i] == b.first && r.bodies[j] == b.second
  {
  }

  /**
   * Two asteroids that shatter: both stop being active and are written back,
   * then shatter into the next four slots; without four free slots the
   * source writes past its array, which the model reports as a fault.
   */
  lemma AsteroidsShatter(w: World, i: int, j: int, draw: nat)
    requires w.Valid() && 0 <= i < w.count && 0 <= j < w.count && i != j
    requires w.bodies[i].kind == Asteroid && w.bodies[j].kind == Asteroid && draw % 10 == 0
    ensures var pi, pj := w.bodies[i].(active := false), w.bodies[j].(active := false);
      Handle(w, i, j, draw) ==
        if w.count + 4 <= |w.bodies| then Ok(Shatter(Put(w, i, pi, j, pj), i, j)) else Err(NoRoom)
  {
  }

  /**
   * A shatter of two inactive asteroids: both stay as they are, the next four
   * slots become their children, named after the next four running numbers,
   * and every other slot is as it was.
   */
  lemma ShatterEffect(w: World, i: int, j: int)
    requires 0 <= i < w.count && 0 <= j < w.count && i != j && w.count + 4 <= |w.bodies|
    requires !w.bodies[i].active && !w.bodies[j].active
    ensures var r, n, b := Shatter(w, i, j).bodies, w.count, w.bodies;
      var first := w.numAsteroids;
      r[i] == b[i] && r[j] == b[j] &&
      r[n] == Support.Split(b[i], b[n].(name := AsteroidName(first)), true).1 &&
      r[n + 1] == Support.Split(b[i], b[n + 1].(name := AsteroidName(first + 1)), false).1 &&
      r[n + 2] == Support.Split(b[j], b[n + 2].(name := AsteroidName(first + 2)), true).1 &&
      r[n + 3] == Support.Split(b[j], b[n + 3].(name := AsteroidName(first + 3)), false).1 &&
      forall k :: 0 <= k < |b| && k != i && k != j && !(n <= k < n + 4) ==> r[k] == b[k]
  {
    NamedSplitEffect(w.bodies, i, j, w.count, w.numAsteroids);
  }

  /** ShatterEffect on the slots alone: the naming loop, then the four splits. */
  lemma NamedSplitEffect(b: seq<Body>, i: int, j: int, n: int, first: int)
    requires 0 <= i < n && 0 <= j < n && i != j && n + 4 <= |b| && !b[i].active && !b[j].active
    ensures var r := SplitFour(NameSplitSlots(b, n, first), i, j, n);
      r[i] == b[i] && r[j] == b[j] &&
      r[n] == Support.Split(b[i], b[n].(name := AsteroidName(first)), true).1 &&
      r[n + 1] == Support.Split(b[i], b[n + 1].(name := AsteroidName(first + 1)), false).1 &&
      r[n + 2] == Support.Split(b[j], b[n + 2].(name := AsteroidName(first + 2)), true).1 &&
      r[n + 3] == Support.Split(b[j], b[n + 3].(name := AsteroidName(first + 3)), false).1 &&
      forall k :: 0 <= k < |b| && k != i && k != j && !(n <= k < n + 4) ==> r[k] == b[k]
  {
    var named := NameSplitSlots(b, n, first);
    NamedSlots(b, n, first, i);
    NamedSlots(b, n, first, j);
    SplitFourEffect(named, i, j, n);
    NamedSlots(b, n, first, n);
    NamedSlots(b, n, first, n + 1);
    NamedSlots(b, n, first, n + 2);
    NamedSlots(b, n, first, n + 3);
    forall k | 0 <= k < |b| && k != i && k != j && !(n <= k < n + 4)
      ensures SplitFour(named, i, j, n)[k] == b[k]
    {
      NamedSlots(b, n, first, k);
    }
  }

  /** The naming loop gives the slots `n .. n + 3` their names and leaves the others as they were. */
  lemma NamedSlots(b: seq<Body>, n: int, first: int, m: int)
    requires 0 <= n && n + 4 <= |b| && 0 <= m < |b|
    ensures var named := NameSplitSlots(b, n, first);
      named[m] == if n <= m < n + 4 then b[m].(name := AsteroidName(first + (m - n))) else b[m]
  {
    NamedAt(b, n, SplitNames(first), 4, m);
  }

  /** The four splits of two inactive parents leave the parents as they are and fill exactly the slots `n .. n + 3`. */
  lemma {:induction false} SplitFourEffect(b: seq<Body>, i: int, j: int, n: int)
    requires 0 <= i < n && 0 <= j < n && i != j && n + 4 <= |b| && !b[i].active && !b[j].active
    ensures var r := SplitFour(b, i, j, n);
      r[i] == b[i] && r[j] == b[j] &&
      r[n] == Support.Split(b[i], b[n], true).1 &&
      r[n + 1] == Support.Split(b[i], b[n + 1], false).1 &&
      r[n + 2] == Support.Split(b[j], b[n + 2], true).1 &&
      r[n + 3] == Support.Split(b[j], b[n + 3], false).1 &&
      forall k :: 0 <= k < |b| && k != i && k != j && !(n <= k < n + 4) ==> r[k] == b[k]
  {
    var s1 := SplitInto(b, i, n, true);
    var s2 := SplitInto(s1, i, n + 1, false);
    var s3 := SplitInto(s2, j, n + 2, true);
    assert s1[i] == b[i];
    assert s2[i] == b[i];
    assert s3[j] == b[j];
  }

  /** handle_collision does not look at the active flags: an inactive asteroid is still absorbed by an inactive planet. */
  lemma IgnoresActive(w: World, i: int, j: int, draw: nat)
    requires w.Valid() && 0 <= i < w.count && 0 <= j < w.count
    requires w.bodies[i].kind == Asteroid && w.bodies[j].kind == Planet
    requires !w.bodies[i].active && !w.bodies[j].active
    ensures Handle(w, i, j, draw).Ok?
    ensures Handle(w, i, j, draw).value.bodies[j].mass == w.bodies[j].mass + w.bodies[i].mass
  {
    AbsorbedIntoSecond(w, i, j, draw);
  }

  /**
   * comet_invade: slot `count` is offered to random_comet; when a comet
   * appears it is named "COMET " and the running comet number, and the count
   * rises by one. Without a free slot the source writes past its array.
   */
  function Invade(w: World, draw: nat, sample: Support.CometSample): (r: Result<World, Fault>)
    requires w.Valid()
    ensures r.Err? <==> w.count == |w.bodies| && draw % 3000000 == 0
    ensures r.Ok? ==> r.value.Valid() && |r.value.bodies| == |w.bodies| && r.value.numAsteroids == w.numAsteroids
    ensures r.Ok? && draw % 3000000 != 0 ==> r.value == w
  {
    if draw % 3000000 != 0 then Ok(w)
    else if w.count == |w.bodies| then Err(NoRoom)
    else
      var (comet, _) := Support.RandomComet(w.bodies[w.count], draw, sample);
      var named := comet.(name := CometName(w.numComets));
      Ok(World(w.bodies[w.count := named], w.count + 1, w.numAsteroids, w.numComets + 1))
  }

  /** The name comet_invade gives the comet with running number `number`. */
  function CometName(number: int): string {
    "COMET " + Text.IntToString(number)
  }

  /** A comet arrives exactly when the draw is a multiple of 3000000, in the first unused slot, named by the running number. */
  lemma InvadeGrowth(w: World, draw: nat, sample: Support.CometSample)
    requires w.Valid() && w.count < |w.bodies|
    ensures Invade(w, draw, sample).Ok?
    ensures var r := Invade(w, draw, sample).value;
      (r.count == w.count + 1 <==> draw % 3000000 == 0) &&
      (r.count == w.count + 1 ==>
        r.bodies[w.count].active && r.bodies[w.count].kind == Comet &&
        r.bodies[w.count].name == CometName(w.numComets) && r.numComets == w.numComets + 1 &&
        r.bodies[w.count].position == sample.position && r.bodies[w.count].mass == sample.mass &&
        forall k :: 0 <= k < |w.bodies| && k != w.count ==> r.bodies[k] == w.bodies[k])
  {
  }

  /**
   * Rank 0's own scan in check_collisions, from row `i` and column `j` on:
   * rows `i .. hi - 1`, each colliding pair handled the moment it is found,
   * so that later pairs see the changed bodies, and each row running up to
   * the current count, which a split raises on the way. `draw(k)` is what
   * rand() gives the `k`-th handled collision; the result is the final world
   * and the number of collisions handled.
   */
  function RootScan(w: World, i: int, j: int, hi: int, handled: nat, draw: nat -> nat): (r: Result<(World, nat), Fault>)
    requires w.Valid()
    ensures r.Ok? ==> Grown(w, r.value, handled)
    decreases hi - i, |w.bodies| - w.count, w.count - j
  {
    if i >= hi then Ok((w, handled))
    else if j >= w.count then RootScan(w, i + 1, i + 2, hi, handled, draw)
    else if Reports.Hit(w.bodies, Support.CheckForCollision, i, j) then
      HandleGrowth(w, i, j, draw(handled));
      match Handle(w, i, j, draw(handled))
      case Err(e) => Err(e)
      case Ok(next) =>
        RootScan(next, i, j + 1, hi, handled + 1, draw)
    else RootScan(w, i, j + 1, hi, handled, draw)
  }

  /** What is left of a scan keeps the world valid and the slots, and only adds bodies as new asteroids. */
  predicate Grown(w: World, result: (World, nat), handled: nat) {
    var (r, h) := result;
    r.Valid() && |r.bodies| == |w.bodies| && w.count <= r.count &&
    r.numAsteroids == w.numAsteroids + (r.count - w.count) && r.numComets == w.numComets && handled <= h
  }

  /** With no eligible pair colliding, the scan changes nothing and handles nothing. */
  lemma {:induction false} RootScanQuiet(w: World, i: int, j: int, hi: int, handled: nat, draw: nat -> nat)
    requires w.Valid()
    requires forall a, b :: !Reports.Hit(w.bodies, Support.CheckForCollision, a, b)
    ensures RootScan(w, i, j, hi, handled, draw) == Ok((w, handled))
    decreases hi - i, w.count - j
  {
    if i >= hi {
    } else if j >= w.count {
      RootScanQuiet(w, i + 1, i + 2, hi, handled, draw);
    } else {
      RootScanQuiet(w, i, j + 1, hi, handled, draw);
    }
  }

  /** Rank 0 resolving reported pairs in the order they come, the `k`-th handled collision taking `draw(k)`. */
  function ResolveAll(w: World, pairs: seq<(int, int)>, handled: nat, draw: nat -> nat): (r: Result<(World, nat), Fault>)
    requires w.Valid()
    ensures r.Ok? ==>
      var (x, h) := r.value;
      x.Valid() && |x.bodies| == |w.bodies| && w.count <= x.count && h == handled + |pairs| &&
      x.numAsteroids == w.numAsteroids + (x.count - w.count) && x.numComets == w.numComets
    decreases |pairs|
  {
    if |pairs| == 0 then Ok((w, handled))
    else
      HandleGrowth(w, pairs[0].0, pairs[0].1, draw(handled));
      match Handle(w, pairs[0].0, pairs[0].1, draw(handled))
      case Err(e) => Err(e)
      case Ok(next) => ResolveAll(next, pairs[1..], handled + 1, draw)
  }

  /** Resolving two lists of reports one after the other is resolving their concatenation. */
  lemma {:induction false} ResolveAllAppend(w: World, a: seq<(int, int)>, b: seq<(int, int)>, handled: nat, draw: nat -> nat)
    requires w.Valid()
    ensures ResolveAll(w, a, handled, draw).Err? ==> ResolveAll(w, a + b, handled, draw) == ResolveAll(w, a, handled, draw)
    ensures ResolveAll(w, a, handled, draw).Ok? ==>
      var (mid, h) := ResolveAll(w, a, handled, draw).value;
      mid.Valid() && ResolveAll(w, a + b, handled, draw) == ResolveAll(mid, b, h, draw)
    decreases |a|
  {
    if |a| == 0 {
      assert a + b == b;
    } else {
      assert (a + b)[0] == a[0] && (a + b)[1..] == a[1..] + b;
      HandleGrowth(w, a[0].0, a[0].1, draw(handled));
      match Handle(w, a[0].0, a[0].1, draw(handled))
      case Err(e) =>
      case Ok(next) => ResolveAllAppend(next, a[1..], b, handled + 1, draw);
    }
  }
}
