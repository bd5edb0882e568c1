/**
 * The state one rank of the simulation keeps in src/main.c: the body slots
 * and their position histories, the counters, the slice of slots this rank
 * works on with the gather arrays, and the steps of a timestep that change
 * them. The gravitational update and the MPI transfers are not modelled;
 * what a rank receives from the others comes in as parameters.
 */
module Simulation {
  import opened Bodies
  import opened Wrappers
  import CInt
  import Text
  import Partition
  import Reports
  import Support
  import Resolution

  /** One history entry as it is written out: the body's name and its position at that step. */
  datatype Sample = Sample(name: string, point: Point)

  /** A history entry that was only allocated: calloc gives zeros. */
  const Blank := Point(0.0, 0.0, 0.0)

  function PointOf(b: Body): Point {
    Point(b.position.x, b.position.y, b.position.z)
  }

  /**
   * The number of slots: the fourth command-line argument when there is
   * one and only one more, MaxBodyConfigs otherwise. Fewer than two file
   * names is fatal.
   */
  function BodySize(args: seq<string>): (r: Option<int>)
    ensures r.None? <==> |args| < 3
    ensures |args| > 4 ==> r == Some(MaxBodyConfigs as int)
  {
    if |args| < 3 then None
    else if |args| == 4 then Some(Text.Atoi(args[3]))
    else Some(MaxBodyConfigs)
  }

  /** A written number of slots is read back as given; without one the default is used. */
  lemma BodySizeGiven(program: string, config: string, output: string, size: int)
    ensures BodySize([program, config, output, Text.IntToString(size)]) == Some(size)
    ensures BodySize([program, config, output]) == Some(MaxBodyConfigs as int)
  {
    Text.AtoiOfIntToString(size, []);
    assert Text.IntToString(size) + [] == Text.IntToString(size);
  }

  /**
   * The body initialise_bodies makes of an active configuration in a freshly
   * allocated slot: the configured fields are copied and the slot marked
   * active; the acceleration and the collision counters are those of the
   * zeroed slot (the source zeroes the counters itself for a sun, planet or
   * moon only, and never writes the acceleration).
   */
  function Load(c: BodyConfig): (b: Body)
    ensures b.active && b.kind == c.kind && b.name == c.name && b.mass == c.mass
  {
    Body(c.name, c.position, c.mass, c.velocity, EmptySlot.acceleration, c.radius, true, c.kind,
         EmptySlot.collidedAsteroids, EmptySlot.collidedComets)
  }

  /** The active configurations, in order, as bodies: what initialise_bodies packs into the first slots. */
  function Loaded(configs: seq<BodyConfig>): seq<Body> {
    if |configs| == 0 then []
    else Loaded(configs[..|configs| - 1]) + (if configs[|configs| - 1].active then [Load(configs[|configs| - 1])] else [])
  }

  function CountKind(bodies: seq<Body>, kind: BodyType): nat {
    if |bodies| == 0 then 0
    else CountKind(bodies[..|bodies| - 1], kind) + (if bodies[|bodies| - 1].kind == kind then 1 else 0)
  }

  /** No more bodies than configurations, every one of them active and of its configuration's type. */
  lemma {:induction false} LoadedShape(configs: seq<BodyConfig>)
    ensures |Loaded(configs)| <= |configs|
    ensures forall k :: 0 <= k < |Loaded(configs)| ==> Loaded(configs)[k].active
  {
    if |configs| > 0 {
      LoadedShape(configs[..|configs| - 1]);
    }
  }

  /**
   * The active configuration `k` lands in the slot numbered by the active
   * configurations before it: the packing keeps the order and drops nothing.
   */
  lemma {:induction false} LoadedAt(configs: seq<BodyConfig>, k: int)
    requires 0 <= k < |configs| && configs[k].active
    ensures |Loaded(configs[..k])| < |Loaded(configs)|
    ensures Loaded(configs)[|Loaded(configs[..k])|] == Load(configs[k])
  {
    var last := |configs| - 1;
    assert configs[..|configs|][..k] == configs[..k];
    if k == last {
      assert configs[..last] == configs[..k];
    } else {
      assert configs[..last][..k] == configs[..k];
      LoadedAt(configs[..last], k);
    }
  }

  /** Packing one more configuration appends its body when it is active. */
  lemma LoadedStep(configs: seq<BodyConfig>, i: int)
    requires 0 <= i < |configs|
    ensures Loaded(configs[..i + 1]) == Loaded(configs[..i]) + if configs[i].active then [Load(configs[i])] else []
  {
    assert configs[..i + 1][..i] == configs[..i];
  }

  /** The active configurations of a type among the first `i`. */
  function ActiveOfKind(configs: seq<BodyConfig>, i: nat, kind: BodyType): nat
    requires i <= |configs|
  {
    if i == 0 then 0
    else ActiveOfKind(configs, i - 1, kind) + (if configs[i - 1].active && configs[i - 1].kind == kind then 1 else 0)
  }

  /** Counting the active configurations of a type is counting that type among the loaded bodies. */
  lemma {:induction false} ActiveOfKindLoaded(configs: seq<BodyConfig>, i: nat, kind: BodyType)
    requires i <= |configs|
    ensures ActiveOfKind(configs, i, kind) == CountKind(Loaded(configs[..i]), kind)
  {
    if i > 0 {
      ActiveOfKindLoaded(configs, i - 1, kind);
      CountLoadedStep(configs, i - 1, kind);
    }
  }

  /** Packing one more configuration counts one more body of its type when it is active. */
  lemma CountLoadedStep(configs: seq<BodyConfig>, i: int, kind: BodyType)
    requires 0 <= i < |configs|
    ensures CountKind(Loaded(configs[..i + 1]), kind) ==
      CountKind(Loaded(configs[..i]), kind) + (if configs[i].active && configs[i].kind == kind then 1 else 0)
  {
    LoadedStep(configs, i);
    if configs[i].active {
      CountKindAppend(Loaded(configs[..i]), Load(configs[i]), kind);
    } else {
      assert Loaded(configs[..i + 1]) == Loaded(configs[..i]);
    }
  }

  /** The counts of a kind add up over a concatenation. */
  lemma {:induction false} CountKindAppend(a: seq<Body>, b: Body, kind: BodyType)
    ensures CountKind(a + [b], kind) == CountKind(a, kind) + (if b.kind == kind then 1 else 0)
  {
    assert (a + [b])[..|a|] == a;
  }

  /** How the output file reads after a flush: the first flush starts it afresh, the later ones append. */
  function Flushed(file: seq<Sample>, outputs: nat, dump: seq<Sample>): seq<Sample> {
    (if outputs == 0 then [] else file) + dump
  }

  /** The number of loop indices in `[from, from + calls)` at which print_frequently stores the history. */
  function StoresIn(from: nat, calls: nat, frequency: int): nat
    requires frequency != 0
  {
    if calls == 0 then 0
    else StoresIn(from, calls - 1, frequency) + (if CInt.Mod(from + calls - 1, frequency) == 0 then 1 else 0)
  }

  /** Over the first `calls` timesteps the history is stored `ceil(calls / frequency)` times: at 0, f, 2f, ... */
  lemma {:induction false} StoresFromStart(calls: nat, frequency: int)
    requires frequency > 0
    ensures StoresIn(0, calls, frequency) == (calls + frequency - 1) / frequency
  {
    if calls > 0 {
      StoresFromStart(calls - 1, frequency);
      var n := calls - 1;
      CInt.NonNegativeAgrees(n, frequency);
      var q, r := n / frequency, n % frequency;
      assert n == q * frequency + r;
      assert (q + 1) * frequency == q * frequency + frequency;
      if r == 0 {
        CInt.DivideExactly(n + frequency - 1, frequency, q, frequency - 1);
        CInt.DivideExactly(calls + frequency - 1, frequency, q + 1, 0);
      } else {
        CInt.DivideExactly(n + frequency - 1, frequency, q + 1, r - 1);
        CInt.DivideExactly(calls + frequency - 1, frequency, q + 1, r);
      }
    }
  }

  /** The collisions with asteroids and with comets counted by the suns, planets and moons among `bodies`. */
  function LargeCollisions(bodies: seq<Body>): (int, int) {
    if |bodies| == 0 then (0, 0)
    else
      var (a, c) := LargeCollisions(bodies[..|bodies| - 1]);
      var b := bodies[|bodies| - 1];
      if TypeCode(b.kind) < 3 then (a + b.collidedAsteroids, c + b.collidedComets) else (a, c)
  }

  /** Changing one body changes the totals by what that body's own contribution changes. */
  lemma {:induction false} LargeCollisionsUpdate(bodies: seq<Body>, k: int, b: Body)
    requires 0 <= k < |bodies|
    ensures var before, after := LargeCollisions(bodies), LargeCollisions(bodies[k := b]);
      var old_, new_ := Contribution(bodies[k]), Contribution(b);
      after.0 - before.0 == new_.0 - old_.0 && after.1 - before.1 == new_.1 - old_.1
  {
    var last := |bodies| - 1;
    if k < last {
      assert bodies[k := b][..last] == bodies[..last][k := b];
      LargeCollisionsUpdate(bodies[..last], k, b);
    } else {
      assert bodies[k := b][..last] == bodies[..last];
    }
  }

  /** What one body adds to the totals. */
  function Contribution(b: Body): (int, int) {
    if TypeCode(b.kind) < 3 then (b.collidedAsteroids, b.collidedComets) else (0, 0)
  }

  /** One report at the head of the arrivals: it is resolved first, the rest of the drain after it. */
  lemma {:induction false} DrainReport(w: Resolution.World, arrivals: seq<Reports.Message>, awaiting: nat, max: int, handled: nat, draw: nat -> nat)
    requires w.Valid() && max != 0 && awaiting > 0 && |arrivals| > 0 && !Reports.IsDone(arrivals[0])
    ensures var pair := Reports.Decode(arrivals[0].payload, max);
      var d, rest := Reports.Drain(arrivals, awaiting, max), Reports.Drain(arrivals[1..], awaiting, max);
      var h := Resolution.Handle(w, pair.0, pair.1, draw(handled));
      d.Starved? == rest.Starved? &&
      (h.Err? ==> Resolution.ResolveAll(w, d.pairs, handled, draw) == Err(h.error)) &&
      (h.Ok? ==> Resolution.ResolveAll(w, d.pairs, handled, draw) == Resolution.ResolveAll(h.value, rest.pairs, handled + 1, draw))
  {
    var pair := Reports.Decode(arrivals[0].payload, max);
    var rest := Reports.Drain(arrivals[1..], awaiting, max);
    assert Reports.Drain(arrivals, awaiting, max) == Reports.Prepend(pair, rest);
    assert ([pair] + rest.pairs)[0] == pair;
    assert ([pair] + rest.pairs)[1..] == rest.pairs;
  }

  /**
   * A small body absorbed by a large one adds exactly one collision to the
   * totals end_simulate reports: with an asteroid for an asteroid, with a
   * comet for a comet.
   */
  lemma AbsorptionCounted(w: Resolution.World, i: int, j: int, draw: nat)
    requires w.Valid() && 0 <= i < w.count && 0 <= j < w.count && i != j
    requires IsSmall(w.bodies[i].kind) && IsLarge(w.bodies[j].kind)
    ensures Resolution.Handle(w, i, j, draw).Ok?
    ensures var before, after := LargeCollisions(w.bodies[..w.count]), LargeCollisions(Resolution.Handle(w, i, j, draw).value.bodies[..w.count]);
      after == if w.bodies[i].kind == Asteroid then (before.0 + 1, before.1) else (before.0, before.1 + 1)
  {
    Resolution.AbsorbedIntoSecond(w, i, j, draw);
    var r := Resolution.Handle(w, i, j, draw).value;
    var (large, small) := Support.PlanetAsteroid(w.bodies[j], w.bodies[i]);
    var s := w.bodies[..w.count];
    assert r.bodies[..w.count] == s[j := large][i := small] by {
      assert forall k :: 0 <= k < w.count ==> r.bodies[..w.count][k] == s[j := large][i := small][k];
    }
    Absorbed(s, i, j);
  }

  /** The totals over a prefix after its small body `i` is absorbed into its large body `j`. */
  lemma {:induction false} Absorbed(s: seq<Body>, i: int, j: int)
    requires 0 <= i < |s| && 0 <= j < |s| && i != j
    requires IsSmall(s[i].kind) && IsLarge(s[j].kind)
    ensures var (large, small) := Support.PlanetAsteroid(s[j], s[i]);
      var before, after := LargeCollisions(s), LargeCollisions(s[j := large][i := small]);
      after == if s[i].kind == Asteroid then (before.0 + 1, before.1) else (before.0, before.1 + 1)
  {
    var (large, small) := Support.PlanetAsteroid(s[j], s[i]);
    LargeCollisionsUpdate(s, j, large);
    LargeCollisionsUpdate(s[j := large], i, small);
  }

  /**
   * The loop of initialise_bodies over a zeroed array of slots: the active
   * configurations are packed, in order, into the first slots, and the
   * asteroids and comets among them are counted.
   */
  method Pack(slots: array<Body>, configs: seq<BodyConfig>) returns (current: nat, asteroids: nat, comets: nat)
    requires |configs| == slots.Length
    requires forall k :: 0 <= k < slots.Length ==> slots[k] == EmptySlot
    modifies slots
    ensures current == |Loaded(configs)| <= slots.Length && slots[..current] == Loaded(configs)
    ensures forall k :: current <= k < slots.Length ==> slots[k] == EmptySlot
    ensures asteroids == CountKind(Loaded(configs), Asteroid) && comets == CountKind(Loaded(configs), Comet)
  {
    current, asteroids, comets := 0, 0, 0;
    var i := 0;
    ghost var packed: seq<Body> := [];
    while i < |configs|
      invariant 0 <= i <= |configs|
      invariant packed == Loaded(configs[..i])
      invariant current == |packed| <= i
      invariant forall k :: 0 <= k < slots.Length ==> slots[k] == if k < current then packed[k] else EmptySlot
      invariant asteroids == ActiveOfKind(configs, i, Asteroid) && comets == ActiveOfKind(configs, i, Comet)
    {
      var c := configs[i];
      LoadedStep(configs, i);
      if c.active {
        slots[current] := Load(c);
        asteroids, comets := Tally(asteroids, comets, c.kind);
        packed := packed + [Load(c)];
        current := current + 1;
      }
      i := i + 1;
    }
    assert configs[..|configs|] == configs;
    assert slots[..current] == packed;
    ActiveOfKindLoaded(configs, |configs|, Asteroid);
    ActiveOfKindLoaded(configs, |configs|, Comet);
  }

  /** The counting at the end of each turn of initialise_bodies: asteroids and comets are counted, other types are not. */
  method Tally(asteroids: nat, comets: nat, kind: BodyType) returns (a: nat, c: nat)
    ensures a == asteroids + (if kind == Asteroid then 1 else 0)
    ensures c == comets + (if kind == Comet then 1 else 0)
  {
    a, c := asteroids, comets;
    if kind == Asteroid {
      a := a + 1;
    } else if kind == Comet {
      c := c + 1;
    }
  }

  /** A new slot's history is allocated zeroed. */
  method ClearRow(rows: array2<Point>, k: int)
    requires 0 <= k < rows.Length0
    modifies rows
    ensures forall m, t :: 0 <= m < rows.Length0 && 0 <= t < rows.Length1 ==>
      rows[m, t] == if m == k then Blank else old(rows[m, t])
  {
    var t := 0;
    while t < rows.Length1
      invariant 0 <= t <= rows.Length1
      invariant forall m, u :: 0 <= m < rows.Length0 && 0 <= u < rows.Length1 ==>
        rows[m, u] == if m == k && u < t then Blank else old(rows[m, u])
    {
      rows[k, t] := Blank;
      t := t + 1;
    }
  }

  /**
   * The naming loop before a split, over the slots and their histories:
   * slots `n .. n + 3` are named after the running numbers `first ..
   * first + 3` and get zeroed histories; the next running number is returned.
   */
  method NameSlots(slots: array<Body>, rows: array2<Point>, n: int, first: int) returns (next: int)
    requires 0 <= n && n + 4 <= slots.Length && n + 4 <= rows.Length0
    modifies slots, rows
    ensures next == first + 4
    ensures slots[..] == Resolution.NameSplitSlots(old(slots[..]), n, first)
    ensures forall m, t :: 0 <= m < rows.Length0 && 0 <= t < rows.Length1 ==>
      rows[m, t] == if n <= m < n + 4 then Blank else old(rows[m, t])
  {
    var k := n;
    next := first;
    ghost var names := Resolution.SplitNames(first);
    while k < n + 4
      invariant n <= k <= n + 4 && next == first + (k - n)
      invariant slots[..] == Resolution.NameFirst(old(slots[..]), n, names, k - n)
      invariant forall m, t :: 0 <= m < rows.Length0 && 0 <= t < rows.Length1 ==>
        rows[m, t] == if n <= m < k then Blank else old(rows[m, t])
    {
      Resolution.NamedAt(old(slots[..]), n, names, k - n, k);
      assert Resolution.AsteroidName(next) == names[k - n];
      NameOne(slots, rows, k, Resolution.AsteroidName(next));
      next := next + 1;
      k := k + 1;
    }
  }

  /** One turn of that loop: slot `k` gets a new name and a zeroed history. */
  method NameOne(slots: array<Body>, rows: array2<Point>, k: int, name: string)
    requires 0 <= k < slots.Length && k < rows.Length0
    modifies slots, rows
    ensures slots[..] == old(slots[..])[k := old(slots[k]).(name := name)]
    ensures forall m, t :: 0 <= m < rows.Length0 && 0 <= t < rows.Length1 ==>
      rows[m, t] == if m == k then Blank else old(rows[m, t])
  {
    slots[k] := slots[k].(name := name);
    ClearRow(rows, k);
  }

  /** Writes the two bodies of a pair back to their slots, `i` first. */
  method Put(slots: array<Body>, i: int, bi: Body, j: int, bj: Body)
    requires 0 <= i < slots.Length && 0 <= j < slots.Length
    modifies slots
    ensures slots[..] == old(slots[..])[i := bi][j := bj]
  {
    slots[i] := bi;
    slots[j] := bj;
  }

  /** split_asteroid(&bodies[parent], &bodies[slot], direction). */
  method SplitAt(slots: array<Body>, parent: int, slot: int, direction: bool)
    requires 0 <= parent < slots.Length && 0 <= slot < slots.Length && parent != slot
    modifies slots
    ensures slots[..] == Resolution.SplitInto(old(slots[..]), parent, slot, direction)
  {
    var (p, c) := Support.Split(slots[parent], slots[slot], direction);
    slots[parent] := p;
    slots[slot] := c;
  }

  /** The four split_asteroid calls of a shattering pair, into the slots `n .. n + 3`. */
  method SplitChildren(slots: array<Body>, i: int, j: int, n: int)
    requires 0 <= i < n && 0 <= j < n && i != j && n + 4 <= slots.Length
    modifies slots
    ensures slots[..] == Resolution.SplitFour(old(slots[..]), i, j, n)
  {
    ghost var s0 := slots[..];
    SplitAt(slots, i, n, true);
    ghost var s1 := slots[..];
    SplitAt(slots, i, n + 1, false);
    ghost var s2 := slots[..];
    SplitAt(slots, j, n + 2, true);
    ghost var s3 := slots[..];
    SplitAt(slots, j, n + 3, false);
  }

  /**
   * Two asteroids that shatter, over the slots and their histories: both are
   * written back, the four slots from `n` are named after the running
   * numbers from `number` and zeroed, and each asteroid splits into two of
   * them. The next running number is returned.
   */
  method ShatterSlots(slots: array<Body>, rows: array2<Point>, i: int, j: int, first: Body, second: Body, n: int, number: int)
    returns (next: int)
    requires 0 <= i < n && 0 <= j < n && i != j && n + 4 <= slots.Length && n + 4 <= rows.Length0
    modifies slots, rows
    ensures next == number + 4
    ensures slots[..] == Resolution.SplitFour(Resolution.NameSplitSlots(old(slots[..])[i := first][j := second], n, number), i, j, n)
    ensures forall m, t :: 0 <= m < rows.Length0 && 0 <= t < rows.Length1 ==>
      rows[m, t] == if n <= m < n + 4 then Blank else old(rows[m, t])
  {
    ghost var put := old(slots[..])[i := first][j := second];
    Put(slots, i, first, j, second);
    next := NameSlots(slots, rows, n, number);
    ghost var named := Resolution.NameSplitSlots(put, n, number);
    assert slots[..] == named;
    SplitChildren(slots, i, j, n);
  }

  class Simulation {
    /** The number of ranks and this rank's number. */
    const population: int
    const id: int
    /** The body slots, `max_body_size` of them. */
    const bodies: array<Body>
    /** `history[k, t]` is the position of slot `k` at history entry `t`. */
    const history: array2<Point>
    /** The counts and displacements rank 0 gathers the slices with. */
    const gatherCount: array<int>
    const gatherDisplacement: array<int>
    /** The slots in use, `number_active_bodies`: they are never given back. */
    var count: nat
    /** The running numbers new asteroids and comets are named after. */
    var numAsteroids: int
    var numComets: int
    /** The next history entry, and the number of flushes to the output file so far. */
    var historyIndex: nat
    var fileOutputNum: nat
    /** What the output file holds. */
    var file: seq<Sample>
    /** The timestep, counted by print_frequently. */
    var loopIndex: nat
    /** This rank's slice `[start, end)` and the stride of the partition. */
    var start: int
    var end: int
    var stride: int

    /** The sizes of the arrays, which never change. */
    ghost predicate Shape()
      reads this
    {
      population >= 1 && 0 <= id < population &&
      gatherCount.Length == population && gatherDisplacement.Length == population && gatherCount != gatherDisplacement &&
      history.Length0 == bodies.Length && history.Length1 == MaxHistorySize && count <= bodies.Length
    }

    /** Between the steps the history index is below its capacity and the slice lies within the slots in use. */
    ghost predicate Valid()
      reads this
    {
      Shape() && historyIndex < MaxHistorySize && 0 <= start <= end <= count
    }

    /** The bodies and counters a collision acts on. */
    function Snapshot(): Resolution.World
      reads this, bodies
    {
      Resolution.World(bodies[..], count, numAsteroids, numComets)
    }

    /** The entries `[0, upTo)` of slot `k`'s history. */
    function Row(k: int, upTo: nat): seq<Sample>
      reads bodies, history
      requires history.Length0 == bodies.Length && history.Length1 == MaxHistorySize
      requires 0 <= k < bodies.Length && upTo <= MaxHistorySize
    {
      if upTo == 0 then [] else Row(k, upTo - 1) + [Sample(bodies[k].name, history[k, upTo - 1])]
    }

    /** What a flush writes for the first `n` slots: slot by slot, each slot's entries `[0, upTo)` in order. */
    function Pending(n: nat, upTo: nat): seq<Sample>
      reads bodies, history
      requires history.Length0 == bodies.Length && history.Length1 == MaxHistorySize
      requires n <= bodies.Length && upTo <= MaxHistorySize
    {
      if n == 0 then [] else Pending(n - 1, upTo) + Row(n - 1, upTo)
    }

    /**
     * initialise_function and initialise_bodies: the slots and the histories
     * are allocated, and the active configurations are packed, in order, into
     * the first slots, counting the asteroids and comets among them.
     */
    constructor (configs: seq<BodyConfig>, population: int, id: int)
      requires population >= 1 && 0 <= id < population
      ensures Valid() && this.population == population && this.id == id
      ensures bodies.Length == |configs| && count == |Loaded(configs)|
      ensures bodies[..count] == Loaded(configs)
      ensures forall k :: count <= k < bodies.Length ==> bodies[k] == EmptySlot
      ensures numAsteroids == CountKind(Loaded(configs), Asteroid) && numComets == CountKind(Loaded(configs), Comet)
      ensures historyIndex == 0 && fileOutputNum == 0 && file == [] && loopIndex == 0 && start == 0 && end == 0
    {
      this.population := population;
      this.id := id;
      bodies := new Body[|configs|](_ => EmptySlot);
      history := new Point[|configs|, MaxHistorySize]((_, _) => Blank);
      gatherCount := new int[population](_ => 0);
      gatherDisplacement := new int[population](_ => 0);
      count := 0;
      numAsteroids := 0;
      numComets := 0;
      historyIndex := 0;
      fileOutputNum := 0;
      file := [];
      loopIndex := 0;
      start, end, stride := 0, 0, 0;
      new;
      InitialiseBodies(configs);
    }

    /** initialise_bodies over freshly allocated slots: the configurations are packed and the counters set from them. */
    method InitialiseBodies(configs: seq<BodyConfig>)
      requires Shape() && |configs| == bodies.Length && count == 0
      requires forall k :: 0 <= k < bodies.Length ==> bodies[k] == EmptySlot
      modifies this, bodies
      ensures Shape()
      ensures count == |Loaded(configs)| && bodies[..count] == Loaded(configs)
      ensures forall k :: count <= k < bodies.Length ==> bodies[k] == EmptySlot
      ensures numAsteroids == old(numAsteroids) + CountKind(Loaded(configs), Asteroid)
      ensures numComets == old(numComets) + CountKind(Loaded(configs), Comet)
      ensures historyIndex == old(historyIndex) && fileOutputNum == old(fileOutputNum) && file == old(file) && loopIndex == old(loopIndex)
      ensures start == old(start) && end == old(end) && stride == old(stride)
    {
      var current, asteroids, comets := Pack(bodies, configs);
      count, numAsteroids, numComets := current, numAsteroids + asteroids, numComets + comets;
    }

    /**
     * update_thread: this rank's slice of the slots in use and, with more
     * than one rank, the stride and the gather counts and displacements of
     * all the slices.
     */
    method UpdateThread()
      requires Valid()
      modifies this, gatherCount, gatherDisplacement
      ensures Valid()
      ensures Partition.Span(start, end) == Partition.Range(count, population, id)
      ensures population > 1 ==>
        stride == Partition.Stride(count, population) &&
        gatherCount[..] == Partition.GatherCounts(count, population) &&
        gatherDisplacement[..] == Partition.GatherDisplacements(count, population)
      ensures population <= 1 ==>
        stride == old(stride) && gatherCount[..] == old(gatherCount[..]) && gatherDisplacement[..] == old(gatherDisplacement[..])
      ensures count == old(count) && numAsteroids == old(numAsteroids) && numComets == old(numComets)
      ensures historyIndex == old(historyIndex) && fileOutputNum == old(fileOutputNum) && file == old(file) && loopIndex == old(loopIndex)
    {
      if population <= 1 {
        start := 0;
        end := count;
        return;
      }
      stride := CInt.Div(count, population);
      start := id * stride;
      end := start + stride;
      if id == population - 1 {
        end := count;
      }
      Partition.RangeBounds(count, population, id);
      var i := 0;
      while i < population
        invariant 0 <= i <= population
        invariant forall r :: 0 <= r < i ==> gatherCount[r] == stride && gatherDisplacement[r] == r * stride
        modifies gatherCount, gatherDisplacement
      {
        gatherCount[i] := stride;
        gatherDisplacement[i] := i * stride;
        i := i + 1;
      }
      gatherCount[population - 1] := count - (population - 1) * stride;
      ghost var counts, disps := Partition.GatherCounts(count, population), Partition.GatherDisplacements(count, population);
      assert forall r :: 0 <= r < population ==> gatherCount[r] == counts[r];
      assert forall r :: 0 <= r < population ==> gatherDisplacement[r] == disps[r];
      assert gatherCount[..] == counts;
      assert gatherDisplacement[..] == disps;
    }

    /**
     * handle_collision(i, j), with `draw` the value rand() gives when the
     * pair is two asteroids: the bodies and counters become what
     * Resolution.Handle says, and every slot taken into use gets a zeroed
     * history. A fault leaves the state as it was.
     */
    method HandleCollision(i: int, j: int, draw: nat) returns (fault: Option<Resolution.Fault>)
      requires Valid()
      modifies this, bodies, history
      ensures Valid()
      ensures var r := Resolution.Handle(old(Snapshot()), i, j, draw);
        fault == (if r.Err? then Some(r.error) else None) &&
        Snapshot() == if r.Ok? then r.value else old(Snapshot())
      ensures forall m, t :: 0 <= m < history.Length0 && 0 <= t < history.Length1 ==>
        history[m, t] == if old(count) <= m < count then Blank else old(history[m, t])
      ensures historyIndex == old(historyIndex) && fileOutputNum == old(fileOutputNum) && file == old(file) && loopIndex == old(loopIndex)
      ensures start == old(start) && end == old(end) && stride == old(stride)
    {
      if !(0 <= i < count && 0 <= j < count) || i == j {
        return Some(Resolution.BadPair);
      }
      if bodies[i].kind == Asteroid && bodies[j].kind == Asteroid {
        fault := HandleAsteroids(i, j, draw);
      } else {
        fault := HandleMixed(i, j, draw);
      }
    }

    /** The first branch of handle_collision: two asteroids bounce, or shatter into four new slots. */
    method HandleAsteroids(i: int, j: int, draw: nat) returns (fault: Option<Resolution.Fault>)
      requires Valid() && 0 <= i < count && 0 <= j < count && i != j
      requires bodies[i].kind == Asteroid && bodies[j].kind == Asteroid
      modifies this, bodies, history
      ensures Valid()
      ensures var r := Resolution.Handle(old(Snapshot()), i, j, draw);
        fault == (if r.Err? then Some(r.error) else None) &&
        Snapshot() == if r.Ok? then r.value else old(Snapshot())
      ensures forall m, t :: 0 <= m < history.Length0 && 0 <= t < history.Length1 ==>
        history[m, t] == if old(count) <= m < count then Blank else old(history[m, t])
      ensures historyIndex == old(historyIndex) && fileOutputNum == old(fileOutputNum) && file == old(file) && loopIndex == old(loopIndex)
      ensures start == old(start) && end == old(end) && stride == old(stride)
    {
      assert Resolution.Handle(old(Snapshot()), i, j, draw) == Resolution.AsteroidPair(old(Snapshot()), i, j, draw);
      var outcome := Support.AsteroidAsteroid(bodies[i], bodies[j], draw);
      if outcome.None? {
        return Some(Resolution.NotFinite);
      }
      fault := Bounce(i, j, outcome.value);
    }

    /** A finite bounce of two asteroids: written back, and shattered when the bounce says so and there is room. */
    method Bounce(i: int, j: int, bounce: Support.Bounce) returns (fault: Option<Resolution.Fault>)
      requires Valid() && 0 <= i < count && 0 <= j < count && i != j
      modifies this, bodies, history
      ensures Valid()
      ensures var r := Resolution.Bounced(old(Snapshot()), i, j, bounce);
        fault == (if r.Err? then Some(r.error) else None) &&
        Snapshot() == if r.Ok? then r.value else old(Snapshot())
      ensures forall m, t :: 0 <= m < history.Length0 && 0 <= t < history.Length1 ==>
        history[m, t] == if old(count) <= m < count then Blank else old(history[m, t])
      ensures historyIndex == old(historyIndex) && fileOutputNum == old(fileOutputNum) && file == old(file) && loopIndex == old(loopIndex)
      ensures start == old(start) && end == old(end) && stride == old(stride)
    {
      if !bounce.split {
        Put(bodies, i, bounce.first, j, bounce.second);
        return None;
      }
      if count + 4 > bodies.Length {
        return Some(Resolution.NoRoom);
      }
      Shatter(i, j, bounce.first, bounce.second);
      fault := None;
    }

    /**
     * Two asteroids that shatter: both are written back deactivated, the next
     * four slots are named and zeroed, and each asteroid splits into two of
     * them, the count rising by one with every split.
     */
    method Shatter(i: int, j: int, first: Body, second: Body)
      requires Valid() && 0 <= i < count && 0 <= j < count && i != j && count + 4 <= bodies.Length
      modifies this, bodies, history
      ensures Valid()
      ensures bodies[..] == Resolution.SplitFour(
        Resolution.NameSplitSlots(old(bodies[..])[i := first][j := second], old(count), old(numAsteroids)), i, j, old(count))
      ensures count == old(count) + 4 && numAsteroids == old(numAsteroids) + 4 && numComets == old(numComets)
      ensures forall m, t :: 0 <= m < history.Length0 && 0 <= t < history.Length1 ==>
        history[m, t] == if old(count) <= m < count then Blank else old(history[m, t])
      ensures historyIndex == old(historyIndex) && fileOutputNum == old(fileOutputNum) && file == old(file) && loopIndex == old(loopIndex)
      ensures start == old(start) && end == old(end) && stride == old(stride)
    {
      ghost var target := Resolution.SplitFour(Resolution.NameSplitSlots(bodies[..][i := first][j := second], count, numAsteroids), i, j, count);
      numAsteroids := ShatterSlots(bodies, history, i, j, first, second, count, numAsteroids);
      assert bodies[..] == target;
      count := count + 4;
    }

    /** The other branches of handle_collision, which only ever change the two bodies of the pair. */
    method HandleMixed(i: int, j: int, draw: nat) returns (fault: Option<Resolution.Fault>)
      requires Valid() && 0 <= i < count && 0 <= j < count && i != j
      requires !(bodies[i].kind == Asteroid && bodies[j].kind == Asteroid)
      modifies bodies
      ensures var r := Resolution.Handle(old(Snapshot()), i, j, draw);
        fault == (if r.Err? then Some(r.error) else None) &&
        Snapshot() == if r.Ok? then r.value else old(Snapshot())
    {
      var bi, bj := bodies[i], bodies[j];
      if IsSmall(bi.kind) && IsLarge(bj.kind) {
        var (large, small) := Support.PlanetAsteroid(bj, bi);
        Put(bodies, j, large, i, small);
      } else if IsLarge(bi.kind) && (bj.kind == Asteroid || bi.kind == Comet) {
        var (large, small) := Support.PlanetAsteroid(bi, bj);
        Put(bodies, i, large, j, small);
      } else if bi.kind == Comet && bj.kind == Comet {
        var (c1, c2) := Support.CometComet(bi, bj);
        Put(bodies, i, c1, j, c2);
      } else if bi.kind == Asteroid && bj.kind == Comet {
        var outcome := Support.AsteroidComet(bi, bj);
        if outcome.None? {
          return Some(Resolution.NotFinite);
        }
        var (a, c) := outcome.value;
        Put(bodies, i, a, j, c);
      } else if bi.kind == Comet && bj.kind == Asteroid {
        var outcome := Support.AsteroidComet(bj, bi);
        if outcome.None? {
          return Some(Resolution.NotFinite);
        }
        var (a, c) := outcome.value;
        Put(bodies, j, a, i, c);
      }
      fault := None;
    }

    /**
     * comet_invade on rank 0: the first unused slot is offered to
     * random_comet; a comet that appears is named after the running comet
     * number, gets a zeroed history and takes the slot into use.
     */
    method CometInvade(draw: nat, sample: Support.CometSample) returns (fault: Option<Resolution.Fault>)
      requires Valid()
      modifies this, bodies, history
      ensures Valid()
      ensures var r := Resolution.Invade(old(Snapshot()), draw, sample);
        fault == (if r.Err? then Some(r.error) else None) &&
        Snapshot() == if r.Ok? then r.value else old(Snapshot())
      ensures forall m, t :: 0 <= m < history.Length0 && 0 <= t < history.Length1 ==>
        history[m, t] == if old(count) <= m < count then Blank else old(history[m, t])
      ensures historyIndex == old(historyIndex) && fileOutputNum == old(fileOutputNum) && file == old(file) && loopIndex == old(loopIndex)
      ensures start == old(start) && end == old(end) && stride == old(stride)
    {
      if draw % 3000000 != 0 {
        return None;
      }
      if count == bodies.Length {
        return Some(Resolution.NoRoom);
      }
      var (comet, _) := Support.RandomComet(bodies[count], draw, sample);
      bodies[count] := comet.(name := Resolution.CometName(numComets));
      numComets := numComets + 1;
      ClearRow(history, count);
      count := count + 1;
      fault := None;
    }

    /**
     * dump_history_to_file: every slot in use writes its entries `[0,
     * historyIndex)`, slot by slot; the first flush starts the file afresh and
     * later ones append to it.
     */
    method DumpHistory()
      requires Shape() && historyIndex <= MaxHistorySize
      modifies this
      ensures count == old(count) && numAsteroids == old(numAsteroids) && numComets == old(numComets)
      ensures historyIndex == old(historyIndex) && loopIndex == old(loopIndex)
      ensures start == old(start) && end == old(end) && stride == old(stride)
      ensures fileOutputNum == old(fileOutputNum) + 1
      ensures file == Flushed(old(file), old(fileOutputNum), Pending(count, historyIndex))
    {
      var written := [];
      var i := 0;
      while i < count
        invariant 0 <= i <= count
        invariant written == Pending(i, historyIndex)
      {
        var t := 0;
        while t < historyIndex
          invariant 0 <= t <= historyIndex
          invariant written == Pending(i, historyIndex) + Row(i, t)
        {
          written := written + [Sample(bodies[i].name, history[i, t])];
          t := t + 1;
        }
        i := i + 1;
      }
      file := (if fileOutputNum == 0 then [] else file) + written;
      fileOutputNum := fileOutputNum + 1;
    }

    /**
     * store_history: the position of every slot in use goes into the current
     * entry; the index moves on, and when the history is full it is flushed
     * and starts again at 0.
     */
    method StoreHistory()
      requires Valid()
      modifies this, history
      ensures Valid()
      ensures forall m, t :: 0 <= m < history.Length0 && 0 <= t < history.Length1 ==>
        history[m, t] == if m < count && t == old(historyIndex) then PointOf(bodies[m]) else old(history[m, t])
      ensures count == old(count) && numAsteroids == old(numAsteroids) && numComets == old(numComets) && loopIndex == old(loopIndex)
      ensures start == old(start) && end == old(end) && stride == old(stride)
      ensures historyIndex == (old(historyIndex) + 1) % MaxHistorySize
      ensures old(historyIndex) + 1 == MaxHistorySize ==>
        fileOutputNum == old(fileOutputNum) + 1 && file == Flushed(old(file), old(fileOutputNum), Pending(count, MaxHistorySize))
      ensures old(historyIndex) + 1 < MaxHistorySize ==> fileOutputNum == old(fileOutputNum) && file == old(file)
    {
      var i := 0;
      while i < count
        invariant 0 <= i <= count
        invariant forall m, t :: 0 <= m < history.Length0 && 0 <= t < history.Length1 ==>
          history[m, t] == if m < i && t == historyIndex then PointOf(bodies[m]) else old(history[m, t])
        modifies history
      {
        history[i, historyIndex] := PointOf(bodies[i]);
        i := i + 1;
      }
      historyIndex := historyIndex + 1;
      if historyIndex >= MaxHistorySize {
        DumpHistory();
        historyIndex := 0;
      }
    }

    /**
     * print_frequently on rank 0: the history is stored when the timestep is
     * a multiple of the output frequency (as C's `%` decides), progress is
     * reported on a positive multiple of the progress frequency, and the
     * timestep moves on. A zero divisor in either `%` crashes the process
     * there: a zero output frequency before anything is stored, a zero
     * progress frequency (reached only past timestep 0) before the timestep
     * moves on.
     */
    method PrintFrequently(outputFrequency: int, progressFrequency: int) returns (stored: bool, reported: bool, crashed: bool)
      requires Valid()
      modifies this, history
      ensures Valid()
      ensures crashed <==> outputFrequency == 0 || (old(loopIndex) > 0 && progressFrequency == 0)
      ensures stored <==> outputFrequency != 0 && CInt.Mod(old(loopIndex), outputFrequency) == 0
      ensures reported <==> !crashed && old(loopIndex) > 0 && progressFrequency != 0 && CInt.Mod(old(loopIndex), progressFrequency) == 0
      ensures loopIndex == if crashed then old(loopIndex) else old(loopIndex) + 1
      ensures stored ==> historyIndex == (old(historyIndex) + 1) % MaxHistorySize
      ensures !stored ==> historyIndex == old(historyIndex) && fileOutputNum == old(fileOutputNum) && file == old(file)
      ensures !stored ==> forall m, t :: 0 <= m < history.Length0 && 0 <= t < history.Length1 ==> history[m, t] == old(history[m, t])
      ensures count == old(count) && numAsteroids == old(numAsteroids) && numComets == old(numComets)
      ensures start == old(start) && end == old(end) && stride == old(stride)
    {
      stored, reported, crashed := false, false, false;
      if outputFrequency == 0 {
        crashed := true;
        return;
      }
      stored := CInt.Mod(loopIndex, outputFrequency) == 0;
      if stored { StoreHistory(); }
      if loopIndex > 0 {
        if progressFrequency == 0 {
          crashed := true;
          return;
        }
        reported := CInt.Mod(loopIndex, progressFrequency) == 0;
      }
      loopIndex := loopIndex + 1;
    }

    /**
     * The first half of check_collisions on rank 0: the mirrored slice is
     * scanned and every colliding eligible pair handled at once, later pairs
     * seeing the changed bodies; the `k`-th handled collision takes
     * `draw(k)`, counting from `handledBefore`.
     */
    method RootScan(draw: nat -> nat, handledBefore: nat) returns (fault: Option<Resolution.Fault>, handled: nat)
      requires Valid()
      modifies this, bodies, history
      ensures Valid()
      ensures var lo := old(count) - old(end);
        var r := Resolution.RootScan(old(Snapshot()), lo, lo + 1, old(count) - old(start), handledBefore, draw);
        (fault.None? <==> r.Ok?) && (r.Err? ==> fault == Some(r.error)) && (r.Ok? ==> (Snapshot(), handled) == r.value)
      ensures historyIndex == old(historyIndex) && fileOutputNum == old(fileOutputNum) && file == old(file) && loopIndex == old(loopIndex)
      ensures start == old(start) && end == old(end) && stride == old(stride)
    {
      var lo, hi := count - end, count - start;
      ghost var target := Resolution.RootScan(Snapshot(), lo, lo + 1, hi, handledBefore, draw);
      handled := handledBefore;
      var i := lo;
      while i < hi
        invariant lo <= i && hi <= count
        invariant Valid()
        invariant Resolution.RootScan(Snapshot(), i, i + 1, hi, handled, draw) == target
        invariant historyIndex == old(historyIndex) && fileOutputNum == old(fileOutputNum) && file == old(file) && loopIndex == old(loopIndex)
        invariant start == old(start) && end == old(end) && stride == old(stride)
        decreases hi - i
      {
        fault, handled := RootRow(i, hi, draw, handled);
        if fault.Some? {
          return;
        }
        i := i + 1;
      }
      fault := None;
    }

    /**
     * The inner loop of rank 0's scan for lower slot `i`: the upper slot runs
     * up to the current count, which a split raises while the loop runs.
     * Either a fault ends the whole scan, or what is left of it starts at the
     * next row.
     */
    method RootRow(i: int, hi: int, draw: nat -> nat, handledBefore: nat) returns (fault: Option<Resolution.Fault>, handled: nat)
      requires Valid() && 0 <= i < hi <= count
      modifies this, bodies, history
      ensures Valid() && hi <= count
      ensures var r := Resolution.RootScan(old(Snapshot()), i, i + 1, hi, handledBefore, draw);
        if fault.Some? then r == Err(fault.value) else r == Resolution.RootScan(Snapshot(), i + 1, i + 2, hi, handled, draw)
      ensures historyIndex == old(historyIndex) && fileOutputNum == old(fileOutputNum) && file == old(file) && loopIndex == old(loopIndex)
      ensures start == old(start) && end == old(end) && stride == old(stride)
    {
      ghost var target := Resolution.RootScan(Snapshot(), i, i + 1, hi, handledBefore, draw);
      handled := handledBefore;
      var j := i + 1;
      while j < count
        invariant i + 1 <= j <= count && hi <= count
        invariant Valid()
        invariant Resolution.RootScan(Snapshot(), i, j, hi, handled, draw) == target
        invariant historyIndex == old(historyIndex) && fileOutputNum == old(fileOutputNum) && file == old(file) && loopIndex == old(loopIndex)
        invariant start == old(start) && end == old(end) && stride == old(stride)
        decreases bodies.Length - count, count - j
      {
        fault, handled := RootPair(i, j, hi, draw, handled);
        if fault.Some? {
          return;
        }
        j := j + 1;
      }
      fault := None;
    }

    /** One turn of that inner loop: the pair `i`, `j` is checked and, when it collides, handled. */
    method RootPair(i: int, j: int, hi: int, draw: nat -> nat, handledBefore: nat) returns (fault: Option<Resolution.Fault>, handled: nat)
      requires Valid() && 0 <= i < hi <= count && i < j < count
      modifies this, bodies, history
      ensures Valid() && old(count) <= count
      ensures var r := Resolution.RootScan(old(Snapshot()), i, j, hi, handledBefore, draw);
        if fault.Some? then r == Err(fault.value) else r == Resolution.RootScan(Snapshot(), i, j + 1, hi, handled, draw)
      ensures historyIndex == old(historyIndex) && fileOutputNum == old(fileOutputNum) && file == old(file) && loopIndex == old(loopIndex)
      ensures start == old(start) && end == old(end) && stride == old(stride)
    {
      handled := handledBefore;
      fault := None;
      ghost var before := Snapshot();
      if Reports.Hit(bodies[..], Support.CheckForCollision, i, j) {
        fault := HandleCollision(i, j, draw(handled));
        if fault.Some? {
          return;
        }
        Resolution.HandleGrowth(before, i, j, draw(handled));
        handled := handled + 1;
      }
    }

    /**
     * The second half of check_collisions on rank 0: messages are taken in
     * arrival order until every other rank's done message has come, and
     * every report is decoded and handled. When the messages run out first
     * the rank would wait for ever; `starved` says so.
     */
    method RootDrain(arrivals: seq<Reports.Message>, draw: nat -> nat, handledBefore: nat)
      returns (fault: Option<Resolution.Fault>, starved: bool, handled: nat)
      requires Valid() && bodies.Length > 0
      modifies this, bodies, history
      ensures Valid()
      ensures var d := Reports.Drain(arrivals, Reports.Awaited(population), bodies.Length);
        var r := Resolution.ResolveAll(old(Snapshot()), d.pairs, handledBefore, draw);
        (fault.None? <==> r.Ok?) && (r.Err? ==> fault == Some(r.error)) &&
        (r.Ok? ==> (Snapshot(), handled) == r.value && starved == d.Starved?)
      ensures historyIndex == old(historyIndex) && fileOutputNum == old(fileOutputNum) && file == old(file) && loopIndex == old(loopIndex)
      ensures start == old(start) && end == old(end) && stride == old(stride)
    {
      var max := bodies.Length;
      ghost var d := Reports.Drain(arrivals, Reports.Awaited(population), max);
      ghost var target := Resolution.ResolveAll(Snapshot(), d.pairs, handledBefore, draw);
      handled := handledBefore;
      var peers := 1;
      var next := 0;
      assert arrivals[0..] == arrivals;
      ghost var pending := d;
      while peers < population
        invariant 1 <= peers <= population && 0 <= next <= |arrivals|
        invariant Valid()
        invariant pending == Reports.Drain(arrivals[next..], population - peers, max)
        invariant pending.Starved? == d.Starved?
        invariant Resolution.ResolveAll(Snapshot(), pending.pairs, handled, draw) == target
        invariant historyIndex == old(historyIndex) && fileOutputNum == old(fileOutputNum) && file == old(file) && loopIndex == old(loopIndex)
        invariant start == old(start) && end == old(end) && stride == old(stride)
        decreases |arrivals| - next
      {
        if next == |arrivals| {
          assert pending == Reports.Starved([]);
          assert target == Ok((Snapshot(), handled));
          return None, true, handled;
        }
        fault, peers, handled := TakeMessage(arrivals, next, peers, draw, handled);
        if fault.Some? {
          return fault, false, handled;
        }
        pending := Reports.Drain(arrivals[next + 1..], population - peers, max);
        next := next + 1;
      }
      assert pending.pairs == [];
      assert target == Ok((Snapshot(), handled));
      fault, starved := None, false;
    }

    /** One message taken by rank 0's receive loop: a done message lowers the number awaited, a report is resolved. */
    method TakeMessage(arrivals: seq<Reports.Message>, next: nat, peersBefore: int, draw: nat -> nat, handledBefore: nat)
      returns (fault: Option<Resolution.Fault>, peers: int, handled: nat)
      requires Valid() && bodies.Length > 0 && next < |arrivals| && 1 <= peersBefore < population
      modifies this, bodies, history
      ensures Valid()
      ensures peersBefore <= peers <= population
      ensures var d := Reports.Drain(arrivals[next..], population - peersBefore, bodies.Length);
        var rest := Reports.Drain(arrivals[next + 1..], population - peers, bodies.Length);
        var r := Resolution.ResolveAll(old(Snapshot()), d.pairs, handledBefore, draw);
        rest.Starved? == d.Starved? &&
        (fault.Some? ==> r == Err(fault.value)) &&
        (fault.None? ==> Resolution.ResolveAll(Snapshot(), rest.pairs, handled, draw) == r)
      ensures historyIndex == old(historyIndex) && fileOutputNum == old(fileOutputNum) && file == old(file) && loopIndex == old(loopIndex)
      ensures start == old(start) && end == old(end) && stride == old(stride)
    {
      assert arrivals[next..][1..] == arrivals[next + 1..];
      if arrivals[next].tag == 0 {
        fault, peers, handled := None, peersBefore + 1, handledBefore;
        assert Reports.Drain(arrivals[next..], population - peersBefore, bodies.Length) == Reports.Drain(arrivals[next + 1..], population - peers, bodies.Length);
      } else {
        peers := peersBefore;
        fault, handled := TakeReport(arrivals, next, peers, draw, handledBefore);
      }
    }

    /** A report taken by rank 0's receive loop: its pair is resolved, and the count handled rises unless it faults. */
    method TakeReport(arrivals: seq<Reports.Message>, next: nat, peers: int, draw: nat -> nat, handledBefore: nat)
      returns (fault: Option<Resolution.Fault>, handled: nat)
      requires Valid() && bodies.Length > 0 && next < |arrivals| && 1 <= peers < population
      requires arrivals[next].tag != 0
      modifies this, bodies, history
      ensures Valid()
      ensures var d := Reports.Drain(arrivals[next..], population - peers, bodies.Length);
        var rest := Reports.Drain(arrivals[next + 1..], population - peers, bodies.Length);
        var r := Resolution.ResolveAll(old(Snapshot()), d.pairs, handledBefore, draw);
        rest.Starved? == d.Starved? &&
        (fault.Some? ==> r == Err(fault.value)) &&
        (fault.None? ==> Resolution.ResolveAll(Snapshot(), rest.pairs, handled, draw) == r)
      ensures historyIndex == old(historyIndex) && fileOutputNum == old(fileOutputNum) && file == old(file) && loopIndex == old(loopIndex)
      ensures start == old(start) && end == old(end) && stride == old(stride)
    {
      assert arrivals[next..][1..] == arrivals[next + 1..];
      var pair := Reports.Decode(arrivals[next].payload, bodies.Length);
      ghost var before := Snapshot();
      ghost var h := Resolution.Handle(before, pair.0, pair.1, draw(handledBefore));
      DrainReport(before, arrivals[next..], population - peers, bodies.Length, handledBefore, draw);
      Resolution.HandleGrowth(before, pair.0, pair.1, draw(handledBefore));
      fault := HandleCollision(pair.0, pair.1, draw(handledBefore));
      handled := handledBefore;
      if fault.None? {
        assert Snapshot() == h.value;
        handled := handledBefore + 1;
      }
    }

    /**
     * check_collisions on a rank other than 0: the mirrored slice is
     * scanned, the code of every colliding eligible pair is posted, and the
     * rank's stream is its reports tagged with its number, then a done
     * message carrying their count. The bodies themselves do not change.
     */
    method PeerCheck() returns (codes: seq<int>, length: nat, stream: seq<Reports.Message>)
      requires Valid() && id >= 1
      ensures codes == Reports.Codes(Reports.ScanHits(bodies[..], Support.CheckForCollision, count, count - end, count - start), bodies.Length)
      ensures length == Reports.BufferLength(|codes|)
      ensures stream == Reports.PeerStream(id, codes)
    {
      codes, length := Reports.PeerReports(bodies[..], Support.CheckForCollision, count, count - end, count - start, bodies.Length);
      stream := Reports.PeerStream(id, codes);
    }

    /**
     * end_simulate on rank 0: the history left over is flushed, and the
     * collisions counted by every sun, planet and moon in use are added up.
     */
    method EndSimulate() returns (asteroids: int, comets: int)
      requires Valid()
      modifies this
      ensures Valid()
      ensures count == old(count) && historyIndex == old(historyIndex) && loopIndex == old(loopIndex)
      ensures numAsteroids == old(numAsteroids) && numComets == old(numComets)
      ensures start == old(start) && end == old(end) && stride == old(stride)
      ensures id == 0 ==> (asteroids, comets) == LargeCollisions(bodies[..count])
      ensures id == 0 && old(historyIndex) > 0 ==>
        fileOutputNum == old(fileOutputNum) + 1 && file == Flushed(old(file), old(fileOutputNum), Pending(count, historyIndex))
      ensures id != 0 || old(historyIndex) == 0 ==> fileOutputNum == old(fileOutputNum) && file == old(file)
    {
      asteroids, comets := 0, 0;
      if id != 0 {
        return;
      }
      if historyIndex > 0 {
        DumpHistory();
      }
      var j := 0;
      while j < count
        invariant 0 <= j <= count
        invariant (asteroids, comets) == LargeCollisions(bodies[..j])
      {
        assert bodies[..j + 1][..j] == bodies[..j];
        if TypeCode(bodies[j].kind) < 3 {
          asteroids := asteroids + bodies[j].collidedAsteroids;
          comets := comets + bodies[j].collidedComets;
        }
        j := j + 1;
      }
    }
  }
}
