/**
 * The configuration reader: the string helpers that pick keys, numbers and
 * type names out of `KEY=value` lines, the defaults, the per-line dispatch
 * that sets the global settings and the body slots, and the post-parse step
 * that checks the capacity and fills the generated belts.
 *
 * Text to floating point (`atof`) is a parameter `toReal`; the lines are
 * the ones `fgets` returns, each with its line end. The random draws of the
 * belt generators are a parameter `draws`, one per slot.
 */
module Configuration {
  import opened Wrappers
  import opened Bodies
  import Text

  /** getBodyType: the five type names, anything else is UNKNOWN. */
  function GetBodyType(s: string): (t: BodyType)
    ensures t != Unknown <==> s in {"SUN", "PLANET", "MOON", "ASTEROID", "COMET"}
  {
    if s == "SUN" then Sun
    else if s == "PLANET" then Planet
    else if s == "MOON" then Moon
    else if s == "ASTEROID" then Asteroid
    else if s == "COMET" then Comet
    else Unknown
  }

  /** The name a configuration file gives a type. */
  function TypeName(t: BodyType): string
    requires t != Unknown
  {
    match t
    case Sun => "SUN"
    case Planet => "PLANET"
    case Moon => "MOON"
    case Asteroid => "ASTEROID"
    case Comet => "COMET"
  }

  /** Every known type is read back from its name. */
  lemma TypeNameRoundTrip(t: BodyType)
    requires t != Unknown
    ensures GetBodyType(TypeName(t)) == t
  {
  }

  /** hasValue: a value is given exactly when the line has an `=`. */
  function HasValue(line: string): (r: bool)
    ensures r <==> '=' in line
  {
    Text.IndexOf(line, '=') != -1
  }

  /** getIntValue: `atoi` of the text after the first `=`, or -1 without one. */
  function GetIntValue(line: string): (r: int)
    ensures '=' !in line ==> r == -1
  {
    var k := Text.IndexOf(line, '=');
    if k < 0 then -1 else Text.Atoi(line[k + 1..])
  }

  /** getDoubleValue: `atof` of the text after the first `=`, or -1 without one. */
  function GetDoubleValue(line: string, toReal: string -> real): (r: real)
    ensures '=' !in line ==> r == -1.0
  {
    var k := Text.IndexOf(line, '=');
    if k < 0 then -1.0 else toReal(line[k + 1..])
  }

  /** A key written with a number after it is read back as that number. */
  lemma IntValueRoundTrip(key: string, n: int)
    requires '=' !in key
    ensures GetIntValue(key + "=" + Text.IntToString(n)) == n
  {
    var line := key + "=" + Text.IntToString(n);
    Text.IndexOfFirst(key, '=', Text.IntToString(n));
    assert line[|key| + 1..] == Text.IntToString(n) + [];
    Text.AtoiOfIntToString(n, []);
  }

  /**
   * getEntityNumber: with at least two `_`, `atoi` of the text between the
   * first two; -1 otherwise. As pieces split at `_`: fewer than three
   * pieces give -1, otherwise `atoi` of the second piece.
   */
  function GetEntityNumber(line: string): (r: int)
    ensures |Text.Split(line, '_')| < 3 ==> r == -1
    ensures |Text.Split(line, '_')| >= 3 ==> r == Text.Atoi(Text.Split(line, '_')[1])
  {
    Text.SplitPieces(line, '_');
    var u := Text.IndexOf(line, '_');
    if u < 0 then -1
    else
      var rest := line[u + 1..];
      Text.SplitPieces(rest, '_');
      var v := Text.IndexOf(rest, '_');
      if v < 0 then -1 else Text.Atoi(rest[..v])
  }

  /** The text between the first two `_` of `<key>_<middle>_<field>` is `middle`. */
  lemma EntityMiddle(key: string, middle: string, field: string)
    requires '_' !in key && '_' !in middle
    ensures GetEntityNumber(key + "_" + middle + "_" + field) == Text.Atoi(middle)
  {
    var line := key + "_" + middle + "_" + field;
    Text.IndexOfFirst(key, '_', middle + "_" + field);
    assert line == key + "_" + (middle + "_" + field);
    var rest := line[|key| + 1..];
    assert rest == middle + "_" + field;
    Text.IndexOfFirst(middle, '_', field);
    assert rest[..|middle|] == middle;
  }

  /** A body line names its slot: `<key>_<n>_<field>` gives `n` back. */
  lemma EntityNumberRoundTrip(key: string, n: nat, field: string)
    requires '_' !in key
    ensures GetEntityNumber(key + "_" + Text.NatToString(n) + "_" + field) == n
  {
    var digits := Text.NatToString(n);
    assert '_' !in digits;
    EntityMiddle(key, digits, field);
    assert digits + [] == digits;
    Text.AtoiOfNatToString(n, []);
  }

  /** A middle that does not start a number, as in `BODY_X_MASS=5`, reads as 0, so the line goes to slot 0. */
  lemma NonNumericEntity(key: string, middle: string, field: string)
    requires '_' !in key && '_' !in middle && middle != []
    requires !Text.IsDigit(middle[0]) && !Text.IsSpace(middle[0]) && middle[0] != '-' && middle[0] != '+'
    ensures GetEntityNumber(key + "_" + middle + "_" + field) == 0
  {
    EntityMiddle(key, middle, field);
    assert Text.SkipSpaces(middle) == middle;
  }

  /** Why a configuration cannot be used: too few slots for what it asks for, or a write outside the slots. */
  datatype Fault = TooFewSlots(needed: int) | OutOfRange(slot: int)

  datatype Settings = Settings(
    dt: real,
    asteroidBelt: int,
    kuiperBelt: int,
    numTimesteps: int,
    outputFrequency: int,
    displayProgressFrequency: int)

  /** initialiseSimulationConfiguration's defaults. */
  const DefaultSettings := Settings(1.0, AsteroidBeltDefault, KuiperBeltDefault, 1000, 10, 10000)

  /** What the reader has built so far: the settings, the slots, and the last body number seen plus one. */
  datatype Parsed = Parsed(settings: Settings, slots: seq<BodyConfig>, index: int)

  /** The line end `fgets` keeps is dropped: a final white-space character, one only. */
  function Chomp(raw: string): string {
    if |raw| > 0 && Text.IsSpace(raw[|raw| - 1]) then raw[..|raw| - 1] else raw
  }

  /** The global keys, each applied when its name occurs anywhere in the line. */
  function ApplySettings(s: Settings, line: string, toReal: string -> real): Settings {
    Settings(
      if Text.Contains(line, "DT") then GetDoubleValue(line, toReal) else s.dt,
      if Text.Contains(line, "NUM_ASTEROIDS_IN_BELT") then GetIntValue(line) else s.asteroidBelt,
      if Text.Contains(line, "NUM_ASTEROIDS_IN_KUIPER") then GetIntValue(line) else s.kuiperBelt,
      if Text.Contains(line, "NUM_TIMESTEPS") then GetIntValue(line) else s.numTimesteps,
      if Text.Contains(line, "OUTPUT_FREQUENCY") then GetIntValue(line) else s.outputFrequency,
      if Text.Contains(line, "DISPLAY_PROGRESS_FREQUENCY") then GetIntValue(line) else s.displayProgressFrequency)
  }

  /** The fields of a body slot a body line sets: the slot becomes active, and each field whose key occurs is set. */
  function ApplyBody(b: BodyConfig, line: string, toReal: string -> real): (r: BodyConfig)
    requires '=' in line
    ensures r.active
  {
    var v := GetDoubleValue(line, toReal);
    var named := if Text.Contains(line, "NAME") then Text.AfterFirst(line, '=') else b.name;
    var mass := if Text.Contains(line, "_MASS") then v else b.mass;
    var radius := if Text.Contains(line, "_RADIUS") then v else b.radius;
    var kind := if Text.Contains(line, "_TYPE") then GetBodyType(Text.AfterFirst(line, '=')) else b.kind;
    BodyConfig(named, Position(b.position, line, v), mass, radius, Velocity(b.velocity, line, v), true, kind)
  }

  /** The `_POSITION_X`, `_POSITION_Y` and `_POSITION_Z` keys. */
  function Position(p: Vec3, line: string, v: real): Vec3 {
    Vec3(
      if Text.Contains(line, "_POSITION_X") then v else p.x,
      if Text.Contains(line, "_POSITION_Y") then v else p.y,
      if Text.Contains(line, "_POSITION_Z") then v else p.z)
  }

  /** The `_VELOCITY_X`, `_VELOCITY_Y` and `_VELOCITY_Z` keys. */
  function Velocity(p: Vec3, line: string, v: real): Vec3 {
    Vec3(
      if Text.Contains(line, "_VELOCITY_X") then v else p.x,
      if Text.Contains(line, "_VELOCITY_Y") then v else p.y,
      if Text.Contains(line, "_VELOCITY_Z") then v else p.z)
  }

  /**
   * One line of the file: comments, empty lines and lines without a value
   * change nothing; otherwise the global keys are applied, and a line with
   * `BODY_` and a body number `n >= 0` sets `index` to `n + 1` and then
   * updates slot `n`, which is fatal when there are not `n + 1` slots.
   */
  function ApplyLine(p: Parsed, raw: string, toReal: string -> real): (r: Result<Parsed, Fault>)
    ensures r.Ok? ==> |r.value.slots| == |p.slots|
  {
    var line := Chomp(raw);
    if |line| == 0 || line[0] == '#' || !HasValue(line) then Ok(p)
    else
      BodyLine(p.(settings := ApplySettings(p.settings, line, toReal)), line, toReal)
  }

  /** The body part of a line with a value, after its global keys. */
  function BodyLine(p: Parsed, line: string, toReal: string -> real): (r: Result<Parsed, Fault>)
    requires '=' in line
    ensures r.Ok? ==> |r.value.slots| == |p.slots|
  {
    var n := if Text.Contains(line, "BODY_") then GetEntityNumber(line) else -1;
    if n < 0 then Ok(p) else SlotLine(p, n, line, toReal)
  }

  /** A line about body `n`: the index moves past `n`, and slot `n` takes the line's field, if there is a slot `n`. */
  function SlotLine(p: Parsed, n: nat, line: string, toReal: string -> real): (r: Result<Parsed, Fault>)
    requires '=' in line
    ensures r.Ok? ==> |r.value.slots| == |p.slots|
  {
    if |p.slots| < n + 1 then Err(TooFewSlots(n + 1))
    else Ok(p.(slots := p.slots[n := ApplyBody(p.slots[n], line, toReal)], index := n + 1))
  }

  /** The lines in file order; the first fatal line ends the reading. */
  function ApplyLines(p: Parsed, lines: seq<string>, toReal: string -> real): (r: Result<Parsed, Fault>)
    ensures r.Ok? ==> |r.value.slots| == |p.slots|
    decreases |lines|
  {
    if lines == [] then Ok(p)
    else
      match ApplyLine(p, lines[0], toReal)
      case Err(e) => Err(e)
      case Ok(q) => ApplyLines(q, lines[1..], toReal)
  }

  /** The random values a generated slot takes: its radius, its `y` coordinate, and the density factor of a Kuiper belt object. */
  datatype Draw = Draw(radius: real, y: real, density: real)

  const AsteroidBeltReach: real := 740448508000.0
  const KuiperBeltReach: real := 7100000000000.0
  /** The orbital speed every generated body starts with, along `y`. */
  const BeltVelocity := Vec3(0.0, 45000.0, 0.0)

  /** The `x` coordinate of the `q`-th of `count` generated bodies: evenly spaced from `-reach`. */
  function BeltX(reach: real, count: int, q: int): real {
    if count == 0 then -reach else -reach + (q as real) * (reach * 2.0 / (count as real))
  }

  /** The Kuiper belt object in slot `k`, the `q`-th of `count`. */
  function KuiperObject(k: int, q: int, count: int, d: Draw): (c: BodyConfig)
    ensures c.active && c.kind == Asteroid && c.velocity == BeltVelocity
  {
    BodyConfig("KBO" + Text.IntToString(k), Vec3(BeltX(KuiperBeltReach, count, q), d.y, 0.0),
               d.density * d.radius * d.radius * d.radius, d.radius, BeltVelocity, true, Asteroid)
  }

  /** The four largest asteroids lead the belt, with their own names, radii and masses. */
  function Largest(q: int): (string, real, real)
    requires 0 <= q < 4
  {
    if q == 0 then ("CERES", 469730.0, 938350000000000000000.0)
    else if q == 1 then ("VESTA", 262700.0, 259076000000000000000.0)
    else if q == 2 then ("PALLAS", 259500.0, 204000000000000000000.0)
    else ("HYGIEA", 433000.0, 87400000000000000000.0)
  }

  /** The mass the four largest asteroids hold, which the source also gives the rest of the belt to share. */
  const LargestMass: real := 938350000000000000000.0 + 259076000000000000000.0 + 204000000000000000000.0 + 87400000000000000000.0

  /** The belt asteroid in slot `k`, the `q`-th of `count`: one of the four largest, or a numbered one. */
  function BeltAsteroid(k: int, q: int, count: int, d: Draw): (c: BodyConfig)
    requires count != 0 && 0 <= q
    ensures c.active && c.kind == Asteroid && c.velocity == BeltVelocity
  {
    var position := Vec3(BeltX(AsteroidBeltReach, count, q), d.y, 0.0);
    if q < 4 then
      var (name, radius, mass) := Largest(q);
      BodyConfig(name, position, mass, radius, BeltVelocity, true, Asteroid)
    else
      BodyConfig("BODY" + Text.IntToString(k), position, LargestMass / (count as real) * d.radius / 130250.0,
                 d.radius, BeltVelocity, true, Asteroid)
  }

  /** Slots `[from, from + count)` hold the Kuiper belt, the rest stay. */
  function KuiperFilled(slots: seq<BodyConfig>, from: int, count: int, draws: int -> Draw): (r: seq<BodyConfig>)
    ensures |r| == |slots|
  {
    seq(|slots|, k requires 0 <= k < |slots| =>
      if from <= k < from + count then KuiperObject(k, k - from, count, draws(k)) else slots[k])
  }

  /** Slots `[from, from + count)` hold the asteroid belt, the rest stay. */
  function BeltFilled(slots: seq<BodyConfig>, from: int, count: int, draws: int -> Draw): (r: seq<BodyConfig>)
    requires count != 0
    ensures |r| == |slots|
  {
    seq(|slots|, k requires 0 <= k < |slots| =>
      if from <= k < from + count then BeltAsteroid(k, k - from, count, draws(k)) else slots[k])
  }

  /** The slots a generator writes all lie inside the array. */
  predicate Inside(slots: seq<BodyConfig>, from: int, count: int) {
    0 <= from && from + count <= |slots|
  }

  /** The first slot outside the array a generator starting at `from` writes, when the run does not fit. */
  function FirstOutside(slots: seq<BodyConfig>, from: int): int {
    if from < 0 || |slots| < from then from else |slots|
  }

  /**
   * After the last line: fatal when the slots cannot hold the bodies read
   * plus both belts; then the Kuiper belt fills from `index` when positive,
   * and the asteroid belt from `index + kuiper` when it has at least four.
   * A generator that would write outside the slots is a fault.
   */
  function Finished(p: Parsed, draws: int -> Draw): (r: Result<seq<BodyConfig>, Fault>)
    ensures r.Ok? ==> |r.value| == |p.slots|
  {
    var kuiper := p.settings.kuiperBelt;
    var belt := p.settings.asteroidBelt;
    var needed := p.index + belt + kuiper;
    if |p.slots| < needed then Err(TooFewSlots(needed))
    else if kuiper > 0 && !Inside(p.slots, p.index, kuiper) then Err(OutOfRange(FirstOutside(p.slots, p.index)))
    else
      var s1 := if kuiper > 0 then KuiperFilled(p.slots, p.index, kuiper, draws) else p.slots;
      if belt >= 4 && !Inside(s1, p.index + kuiper, belt) then Err(OutOfRange(FirstOutside(p.slots, p.index + kuiper)))
      else if belt >= 4 then Ok(BeltFilled(s1, p.index + kuiper, belt, draws))
      else Ok(s1)
  }

  /** The body number a line gives, or -1 when it is skipped, carries no `BODY_` key or no number. */
  function BodyNumber(raw: string): int {
    var line := Chomp(raw);
    if |line| == 0 || line[0] == '#' || !HasValue(line) || !Text.Contains(line, "BODY_") then -1
    else GetEntityNumber(line)
  }

  /** The reference for `index`: one past the body number of the last body line, or `index` as it was without one. */
  function LastIndex(index: int, lines: seq<string>): int
    decreases |lines|
  {
    if lines == [] then index
    else LastIndex(if BodyNumber(lines[0]) >= 0 then BodyNumber(lines[0]) + 1 else index, lines[1..])
  }

  /** One line: the slots keep their number, `index` follows its body number, and only that slot changes. */
  lemma OneLine(p: Parsed, raw: string, toReal: string -> real)
    ensures var n := BodyNumber(raw);
      match ApplyLine(p, raw, toReal)
      case Err(e) => 0 <= n && |p.slots| <= n && e == TooFewSlots(n + 1)
      case Ok(q) =>
        n < |p.slots| && |q.slots| == |p.slots| &&
        q.index == (if n >= 0 then n + 1 else p.index) &&
        forall m :: 0 <= m < |q.slots| ==> q.slots[m] == (if m == n then ApplyBody(p.slots[m], Chomp(raw), toReal) else p.slots[m])
  {
  }

  /**
   * The file is read to the end exactly when every body number fits the
   * slots; then `index` is one past the last body number, not the largest.
   */
  lemma ReadAllIffFits(p: Parsed, lines: seq<string>, toReal: string -> real)
    ensures ApplyLines(p, lines, toReal).Ok? <==> forall k :: 0 <= k < |lines| ==> BodyNumber(lines[k]) < |p.slots|
    ensures ApplyLines(p, lines, toReal).Ok? ==> ApplyLines(p, lines, toReal).value.index == LastIndex(p.index, lines)
  {
    ReadAllIffNumbersFit(p, lines, toReal);
    NumbersFitAll(lines, |p.slots|);
  }

  /** Every body number of the lines is below `size`. */
  predicate NumbersFit(lines: seq<string>, size: int)
    decreases |lines|
  {
    lines == [] || (BodyNumber(lines[0]) < size && NumbersFit(lines[1..], size))
  }

  lemma {:induction false} NumbersFitAll(lines: seq<string>, size: int)
    ensures NumbersFit(lines, size) <==> forall k :: 0 <= k < |lines| ==> BodyNumber(lines[k]) < size
    decreases |lines|
  {
    if lines != [] {
      NumbersFitAll(lines[1..], size);
      assert forall k :: 1 <= k < |lines| ==> lines[k] == lines[1..][k - 1];
    }
  }

  lemma {:induction false} ReadAllIffNumbersFit(p: Parsed, lines: seq<string>, toReal: string -> real)
    ensures ApplyLines(p, lines, toReal).Ok? <==> NumbersFit(lines, |p.slots|)
    ensures ApplyLines(p, lines, toReal).Ok? ==> ApplyLines(p, lines, toReal).value.index == LastIndex(p.index, lines)
    decreases |lines|
  {
    if lines != [] {
      OneLine(p, lines[0], toReal);
      match ApplyLine(p, lines[0], toReal)
      case Err(e) =>
      case Ok(q) =>
        ReadAllIffNumbersFit(q, lines[1..], toReal);
    }
  }

  /** After reading, a slot is active exactly when it was before or some body line names it. */
  lemma {:induction false} ActiveIffNamed(p: Parsed, lines: seq<string>, toReal: string -> real, m: int)
    requires ApplyLines(p, lines, toReal).Ok? && 0 <= m < |p.slots|
    ensures ApplyLines(p, lines, toReal).value.slots[m].active <==>
      p.slots[m].active || exists k :: 0 <= k < |lines| && BodyNumber(lines[k]) == m
    decreases |lines|
  {
    if lines != [] {
      OneLine(p, lines[0], toReal);
      var q := ApplyLine(p, lines[0], toReal).value;
      ActiveIffNamed(q, lines[1..], toReal, m);
      if exists k :: 0 <= k < |lines| - 1 && BodyNumber(lines[1..][k]) == m {
        var k :| 0 <= k < |lines| - 1 && BodyNumber(lines[1..][k]) == m;
        assert BodyNumber(lines[k + 1]) == m;
      }
      if exists k :: 0 <= k < |lines| && BodyNumber(lines[k]) == m {
        var k :| 0 <= k < |lines| && BodyNumber(lines[k]) == m;
        if k > 0 {
          assert BodyNumber(lines[1..][k - 1]) == m;
        }
      }
    }
  }

  /**
   * Any line with a value that mentions DT anywhere, a body's name among
   * them, sets the time step.
   */
  lemma DtAnywhere(p: Parsed, raw: string, toReal: string -> real)
    requires var line := Chomp(raw); |line| > 0 && line[0] != '#' && '=' in line && Text.Contains(line, "DT")
    ensures ApplyLine(p, raw, toReal).Ok? ==> ApplyLine(p, raw, toReal).value.settings.dt == GetDoubleValue(Chomp(raw), toReal)
  {
  }

  /**
   * The capacity check and the generators: fatal exactly when the slots
   * cannot hold the bodies and both belts, or a belt runs outside the slots.
   * The Kuiper belt then holds `[index, index + kuiper)` and the asteroid
   * belt the slots after it; every other slot stays.
   */
  lemma FinishedSlots(p: Parsed, draws: int -> Draw, k: int)
    requires 0 <= k < |p.slots|
    ensures var (i, kuiper, belt) := (p.index, p.settings.kuiperBelt, p.settings.asteroidBelt);
      Finished(p, draws).Err? <==>
        |p.slots| < i + belt + kuiper || (kuiper > 0 && !Inside(p.slots, i, kuiper)) || (belt >= 4 && !Inside(p.slots, i + kuiper, belt))
    ensures var (i, kuiper, belt) := (p.index, p.settings.kuiperBelt, p.settings.asteroidBelt);
      Finished(p, draws).Ok? ==>
        Finished(p, draws).value[k] ==
          if kuiper > 0 && i <= k < i + kuiper then KuiperObject(k, k - i, kuiper, draws(k))
          else if belt >= 4 && i + kuiper <= k < i + kuiper + belt then BeltAsteroid(k, k - i - kuiper, belt, draws(k))
          else p.slots[k]
  {
  }

  /**
   * A negative asteroid belt count passes the capacity check for a Kuiper
   * belt that does not fit: the generator is sent past the last slot.
   */
  lemma NegativeBeltOverruns()
    ensures var p := Parsed(DefaultSettings.(asteroidBelt := -1, kuiperBelt := 1), [UnusedConfig], 1);
      p.index + p.settings.asteroidBelt + p.settings.kuiperBelt <= |p.slots| &&
      Finished(p, _ => Draw(0.0, 0.0, 0.0)) == Err(OutOfRange(1))
  {
  }

  /** The configuration as the reader fills it: the settings, the `body_size` slots, and the `index` of the body lines. */
  class Config {
    var dt: real
    var asteroidBelt: int
    var kuiperBelt: int
    var numTimesteps: int
    var outputFrequency: int
    var displayProgressFrequency: int
    const bodies: array<BodyConfig>
    var index: int

    function State(): Parsed
      reads this, bodies
    {
      Parsed(Settings(dt, asteroidBelt, kuiperBelt, numTimesteps, outputFrequency, displayProgressFrequency), bodies[..], index)
    }

    /**
     * initialiseSimulationConfiguration: the defaults, and `bodySize` slots
     * each made inactive with an empty name; their other fields hold
     * whatever the allocation left. `unset` is the value the never
     * initialised `index` starts with.
     */
    constructor Initialise(bodySize: nat, unset: int)
      ensures fresh(bodies) && bodies.Length == bodySize
      ensures State().settings == DefaultSettings && index == unset
      ensures forall k :: 0 <= k < bodySize ==> !bodies[k].active && bodies[k].name == ""
    {
      dt := 1.0;
      numTimesteps := 1000;
      outputFrequency := 10;
      displayProgressFrequency := 10000;
      asteroidBelt := AsteroidBeltDefault;
      kuiperBelt := KuiperBeltDefault;
      var slots := new BodyConfig[bodySize];
      var i := 0;
      while i < bodySize
        invariant 0 <= i <= bodySize
        invariant forall k :: 0 <= k < i ==> !slots[k].active && slots[k].name == ""
      {
        slots[i] := slots[i].(name := "", active := false);
        i := i + 1;
      }
      bodies := slots;
      index := unset;
    }

    /** One line of parseConfiguration's loop; a fault is where the source exits. */
    method ParseLine(raw: string, toReal: string -> real) returns (fault: Option<Fault>)
      modifies this, bodies
      ensures match ApplyLine(old(State()), raw, toReal)
        case Ok(p) => fault == None && State() == p
        case Err(e) => fault == Some(e)
    {
      var line := Chomp(raw);
      if |line| == 0 || line[0] == '#' || !HasValue(line) {
        return None;
      }
      SetKeys(line, toReal);
      fault := SetBody(line, toReal);
    }

    /** The body part of a line with a value: marks slot `n` active and sets the fields the line names. */
    method SetBody(line: string, toReal: string -> real) returns (fault: Option<Fault>)
      requires '=' in line
      modifies this, bodies
      ensures match BodyLine(old(State()), line, toReal)
        case Ok(p) => fault == None && State() == p
        case Err(e) => fault == Some(e)
    {
      if Text.Contains(line, "BODY_") {
        var n := GetEntityNumber(line);
        if n >= 0 {
          fault := SetSlot(n, line, toReal);
          return;
        }
      }
      return None;
    }

    /** Slot `n`'s part of a line: the index moves past `n` before the slot is checked for. */
    method SetSlot(n: nat, line: string, toReal: string -> real) returns (fault: Option<Fault>)
      requires '=' in line
      modifies this, bodies
      ensures match SlotLine(old(State()), n, line, toReal)
        case Ok(p) => fault == None && State() == p
        case Err(e) => fault == Some(e)
    {
      index := n + 1;
      if bodies.Length < index {
        return Some(TooFewSlots(index));
      }
      bodies[n] := ApplyBody(bodies[n], line, toReal);
      return None;
    }

    /** The global keys of a line with a value, applied in the order the source tests them. */
    method SetKeys(line: string, toReal: string -> real)
      modifies this
      ensures State().settings == ApplySettings(old(State().settings), line, toReal)
      ensures index == old(index)
    {
      SetCountKeys(line);
      SetRateKeys(line, toReal);
    }

    /** The first three keys: the two belt sizes and the number of timesteps. */
    method SetCountKeys(line: string)
      modifies this
      ensures asteroidBelt == if Text.Contains(line, "NUM_ASTEROIDS_IN_BELT") then GetIntValue(line) else old(asteroidBelt)
      ensures kuiperBelt == if Text.Contains(line, "NUM_ASTEROIDS_IN_KUIPER") then GetIntValue(line) else old(kuiperBelt)
      ensures numTimesteps == if Text.Contains(line, "NUM_TIMESTEPS") then GetIntValue(line) else old(numTimesteps)
      ensures dt == old(dt) && outputFrequency == old(outputFrequency) && displayProgressFrequency == old(displayProgressFrequency)
      ensures index == old(index)
    {
      if Text.Contains(line, "NUM_ASTEROIDS_IN_BELT") {
        asteroidBelt := GetIntValue(line);
      }
      if Text.Contains(line, "NUM_ASTEROIDS_IN_KUIPER") {
        kuiperBelt := GetIntValue(line);
      }
      if Text.Contains(line, "NUM_TIMESTEPS") {
        numTimesteps := GetIntValue(line);
      }
    }

    /** The last three keys: the two frequencies and the timestep length. */
    method SetRateKeys(line: string, toReal: string -> real)
      modifies this
      ensures outputFrequency == if Text.Contains(line, "OUTPUT_FREQUENCY") then GetIntValue(line) else old(outputFrequency)
      ensures displayProgressFrequency == if Text.Contains(line, "DISPLAY_PROGRESS_FREQUENCY") then GetIntValue(line) else old(displayProgressFrequency)
      ensures dt == if Text.Contains(line, "DT") then GetDoubleValue(line, toReal) else old(dt)
      ensures asteroidBelt == old(asteroidBelt) && kuiperBelt == old(kuiperBelt) && numTimesteps == old(numTimesteps)
      ensures index == old(index)
    {
      if Text.Contains(line, "OUTPUT_FREQUENCY") {
        outputFrequency := GetIntValue(line);
      }
      if Text.Contains(line, "DISPLAY_PROGRESS_FREQUENCY") {
        displayProgressFrequency := GetIntValue(line);
      }
      if Text.Contains(line, "DT") {
        dt := GetDoubleValue(line, toReal);
      }
    }

    /** The loop of parseConfiguration over the lines of the file. */
    method Parse(lines: seq<string>, toReal: string -> real) returns (fault: Option<Fault>)
      modifies this, bodies
      ensures match ApplyLines(old(State()), lines, toReal)
        case Ok(p) => fault == None && State() == p
        case Err(e) => fault == Some(e)
    {
      var i := 0;
      while i < |lines|
        invariant 0 <= i <= |lines|
        invariant ApplyLines(old(State()), lines, toReal) == ApplyLines(State(), lines[i..], toReal)
      {
        assert lines[i..][1..] == lines[i + 1..];
        fault := ParseLine(lines[i], toReal);
        if fault.Some? {
          return;
        }
        i := i + 1;
      }
      return None;
    }

    /** A generated slot is written when it lies inside the array; outside it is a fault. */
    method Place(k: int, c: BodyConfig) returns (fault: Option<Fault>)
      modifies bodies
      ensures 0 <= k < bodies.Length ==> fault == None && bodies[..] == old(bodies[..])[k := c]
      ensures !(0 <= k < bodies.Length) ==> fault == Some(OutOfRange(k)) && bodies[..] == old(bodies[..])
    {
      if k < 0 || bodies.Length <= k {
        return Some(OutOfRange(k));
      }
      bodies[k] := c;
      return None;
    }

    /** auto_generate_kuiper_belt: `kuiperBelt` objects in consecutive slots from `from`. */
    method GenerateKuiperBelt(from: int, draws: int -> Draw) returns (fault: Option<Fault>)
      modifies bodies
      ensures Inside(old(bodies[..]), from, kuiperBelt) ==>
        fault == None && bodies[..] == KuiperFilled(old(bodies[..]), from, kuiperBelt, draws)
      ensures kuiperBelt > 0 && !Inside(old(bodies[..]), from, kuiperBelt) ==>
        fault == Some(OutOfRange(FirstOutside(old(bodies[..]), from)))
    {
      ghost var target := KuiperFilled(bodies[..], from, kuiperBelt, draws);
      var k := from;
      var i := 0;
      while i < kuiperBelt
        invariant k == from + i && (i == 0 || (0 <= from && k <= bodies.Length && i <= kuiperBelt))
        invariant forall m :: 0 <= m < bodies.Length ==>
          bodies[m] == if from <= m < k then KuiperObject(m, m - from, kuiperBelt, draws(m)) else old(bodies[m])
      {
        fault := Place(k, KuiperObject(k, i, kuiperBelt, draws(k)));
        if fault.Some? {
          return;
        }
        i, k := i + 1, k + 1;
      }
      assert Inside(old(bodies[..]), from, kuiperBelt) ==> bodies[..] == target;
      return None;
    }

    /**
     * auto_generate_asteroid_belt: the four largest asteroids in the slots
     * from `from`, then the other `asteroidBelt - 4` in the slots after them.
     * The source writes the four largest out one after the other; here they
     * are the loop's first four passes, which `BeltAsteroid` gives their
     * names, radii and masses.
     */
    method GenerateAsteroidBelt(from: int, draws: int -> Draw) returns (fault: Option<Fault>)
      requires asteroidBelt >= 4
      modifies bodies
      ensures Inside(old(bodies[..]), from, asteroidBelt) ==>
        fault == None && bodies[..] == BeltFilled(old(bodies[..]), from, asteroidBelt, draws)
      ensures !Inside(old(bodies[..]), from, asteroidBelt) ==>
        fault == Some(OutOfRange(FirstOutside(old(bodies[..]), from)))
    {
      ghost var target := BeltFilled(bodies[..], from, asteroidBelt, draws);
      var k := from;
      var i := 0;
      while i < asteroidBelt
        invariant k == from + i && (i == 0 || (0 <= from && k <= bodies.Length && i <= asteroidBelt))
        invariant forall m :: 0 <= m < bodies.Length ==>
          bodies[m] == if from <= m < k then BeltAsteroid(m, m - from, asteroidBelt, draws(m)) else old(bodies[m])
      {
        fault := Place(k, BeltAsteroid(k, i, asteroidBelt, draws(k)));
        if fault.Some? {
          return;
        }
        i, k := i + 1, k + 1;
      }
      assert Inside(old(bodies[..]), from, asteroidBelt) ==> bodies[..] == target;
      return None;
    }

    /**
     * The end of parseConfiguration: fatal when the slots cannot hold the
     * bodies read and both belts, then the belts are generated. (The warning
     * printed when fewer than 50 slots are left over is console output.)
     */
    method Finish(draws: int -> Draw) returns (fault: Option<Fault>)
      modifies bodies
      ensures match Finished(old(State()), draws)
        case Ok(slots) => fault == None && bodies[..] == slots
        case Err(e) => fault == Some(e)
    {
      var needed := index + asteroidBelt + kuiperBelt;
      if bodies.Length < needed {
        return Some(TooFewSlots(needed));
      }
      if kuiperBelt > 0 {
        fault := GenerateKuiperBelt(index, draws);
        if fault.Some? {
          return;
        }
      }
      if asteroidBelt >= 4 {
        fault := GenerateAsteroidBelt(index + kuiperBelt, draws);
        if fault.Some? {
          return;
        }
      }
      return None;
    }
  }
}
