/**
 * The parser both plotting scripts share: each line of the simulation's
 * output, `<name>_<axis>=<value>`, adds to the trajectory of the body
 * `<name>`. An `x` line starts a new point, a `y` or `z` line sets that
 * coordinate of the body's last point. The values stay the raw text between
 * the first two `=`, line end included; a coordinate never set stays 0.
 * The bodies are kept in the order they first appear, as a Python
 * dictionary keeps its keys.
 */
module TrajectoryLog {
  import opened Wrappers
  import Text

  /** A coordinate: the integer 0 a point starts with, or the text a line gave. */
  datatype Coord = Zero | Given(text: string)

  datatype Point = Point(x: Coord, y: Coord, z: Coord)

  /** A new point holding only its `x`. */
  function Started(v: string): Point {
    Point(Given(v), Zero, Zero)
  }

  /** The exception that ends the script: no `_` in the line, no `=` in it, or a `y`/`z` line for a body with no point. */
  datatype ParseError = NoComponent | NoValue | NoPoint

  /** The dictionary of trajectories, with its keys in insertion order. */
  datatype Log = Log(order: seq<string>, points: map<string, seq<Point>>) {
    ghost predicate Valid() {
      (forall name :: name in points <==> name in order) &&
      (forall a, b :: 0 <= a < b < |order| ==> order[a] != order[b])
    }

    /** The points of a body, none for a body not seen. */
    function Of(name: string): seq<Point> {
      if name in points then points[name] else []
    }
  }

  const Empty := Log([], map[])

  /** The body a line is about: the text before its first `_`. */
  function NameOf(line: string): string {
    Text.Split(line, '_')[0]
  }

  /** The component of a line: between its first `_` and the `=` after it. */
  function Component(line: string): string {
    var parts := Text.Split(line, '_');
    if |parts| < 2 then "" else Text.Split(parts[1], '=')[0]
  }

  /** The log with `name` registered, with no points, unless it already is. */
  function Register(log: Log, name: string): (r: Log)
    ensures name in r.points && r.Of(name) == log.Of(name)
  {
    if name in log.points then log else Log(log.order + [name], log.points[name := []])
  }

  /** Registering a body keeps the keys and their order in step. */
  lemma RegisterValid(log: Log, name: string)
    requires log.Valid()
    ensures Register(log, name).Valid()
  {
  }

  /** The last point of `ps` with one coordinate replaced. */
  function SetLast(ps: seq<Point>, axis: char, v: string): (r: seq<Point>)
    requires |ps| > 0
    ensures |r| == |ps| && r[..|ps| - 1] == ps[..|ps| - 1]
  {
    var last := ps[|ps| - 1];
    ps[..|ps| - 1] + [if axis == 'y' then last.(y := Given(v)) else last.(z := Given(v))]
  }

  /** What a line says about its body: the component, and the value, the text between the line's first two `=`. */
  datatype Reading = Reading(component: string, value: string)

  /** The component and the value of a line, or the exception reading them raises. */
  function Read(line: string): Result<Reading, ParseError> {
    if |Text.Split(line, '_')| < 2 then Err(NoComponent)
    else
      var pieces := Text.Split(line, '=');
      if |pieces| < 2 then Err(NoValue)
      else Ok(Reading(Component(line), pieces[1]))
  }

  /** One line of parse_input_file. */
  function Step(log: Log, line: string): (r: Result<Log, ParseError>)
  {
    var name := NameOf(line);
    var log1 := Register(log, name);
    match Read(line)
    case Err(e) => Err(e)
    case Ok(read) =>
      var ps := log1.points[name];
      if read.component == "x" then Ok(log1.(points := log1.points[name := ps + [Started(read.value)]]))
      else if read.component == "y" || read.component == "z" then
        if ps == [] then Err(NoPoint)
        else Ok(log1.(points := log1.points[name := SetLast(ps, read.component[0], read.value)]))
      else Ok(log1)
  }

  /** parse_input_file: the lines in file order, up to the first that raises. */
  function ParseAll(log: Log, lines: seq<string>): Result<Log, ParseError>
    decreases |lines|
  {
    if lines == [] then Ok(log)
    else
      match Step(log, lines[0])
      case Err(e) => Err(e)
      case Ok(next) => ParseAll(next, lines[1..])
  }

  /** The three lines the simulation writes for one position of a body. */
  function Triple(name: string, x: string, y: string, z: string): seq<string> {
    [LineOf(name, 'x', x), LineOf(name, 'y', y), LineOf(name, 'z', z)]
  }

  /** `<name>_<axis>=<v>`, one line of the simulation's output. */
  function LineOf(name: string, axis: char, v: string): string {
    name + "_" + [axis] + "=" + v
  }

  /** Text the parser takes back whole, as a body name or as `%f` writes a value: no `_` and no `=` in it. */
  predicate Plain(t: string) {
    '_' !in t && '=' !in t
  }

  /** The line `<name>_<axis>=<v>` reads back as the body `name`, the component `axis` and the value `v`. */
  lemma LineRead(name: string, axis: string, v: string)
    requires Plain(name) && Plain(axis) && Plain(v)
    ensures NameOf(name + "_" + axis + "=" + v) == name
    ensures Read(name + "_" + axis + "=" + v) == Ok(Reading(axis, v))
  {
    var rest := axis + "=" + v;
    assert name + "_" + axis + "=" + v == name + ['_'] + rest;
    Text.SplitAtFirst(name, '_', rest);
    Text.SplitNone(rest, '_');
    assert rest == axis + ['='] + v;
    Text.SplitAtFirst(axis, '=', v);
    Text.SplitNone(v, '=');
    assert name + "_" + axis + "=" + v == (name + "_" + axis) + ['='] + v;
    Text.SplitAtFirst(name + "_" + axis, '=', v);
  }

  /** The log with `p` added as the last point of `name`. */
  function Added(log: Log, name: string, p: Point): (r: Log)
    ensures r.Of(name) == log.Of(name) + [p]
  {
    var l := Register(log, name);
    l.(points := l.points[name := l.points[name] + [p]])
  }

  /** Adding a point to one body leaves every other body's points as they were. */
  lemma AddedOf(log: Log, name: string, p: Point, other: string)
    ensures Added(log, name, p).Of(other) == log.Of(other) + if other == name then [p] else []
  {
  }

  /** The log with a coordinate of the last point of `name` set. */
  function SetIn(log: Log, name: string, axis: char, v: string): (r: Log)
    requires log.Of(name) != []
    ensures r.Of(name) == SetLast(log.Of(name), axis, v)
  {
    log.(points := log.points[name := SetLast(log.points[name], axis, v)])
  }

  /** An `x` line of a plain-named body starts a new point on its trajectory. */
  lemma StepX(log: Log, name: string, v: string, rest: seq<string>)
    requires Plain(name) && Plain(v)
    ensures ParseAll(log, [LineOf(name, 'x', v)] + rest) == ParseAll(Added(log, name, Started(v)), rest)
  {
    LineRead(name, "x", v);
    assert Step(log, LineOf(name, 'x', v)) == Ok(Added(log, name, Started(v)));
    ParseOne(log, LineOf(name, 'x', v), Added(log, name, Started(v)), rest);
  }

  /** A `y` or `z` line of a plain-named body with a point sets that coordinate of the last point. */
  lemma StepSet(log: Log, name: string, axis: char, v: string, rest: seq<string>)
    requires Plain(name) && Plain(v) && (axis == 'y' || axis == 'z') && log.Of(name) != []
    ensures ParseAll(log, [LineOf(name, axis, v)] + rest) == ParseAll(SetIn(log, name, axis, v), rest)
  {
    LineRead(name, [axis], v);
    assert Register(log, name) == log;
    assert Step(log, LineOf(name, axis, v)) == Ok(SetIn(log, name, axis, v));
    ParseOne(log, LineOf(name, axis, v), SetIn(log, name, axis, v), rest);
  }

  /**
   * The round trip of the output format: the three lines written for one
   * position of a plain-named body add exactly that point, in order, to the
   * body's trajectory, and leave every other body's as it was.
   */
  lemma {:induction false} TripleRoundTrip(log: Log, name: string, x: string, y: string, z: string)
    requires Plain(name) && Plain(x) && Plain(y) && Plain(z)
    ensures ParseAll(log, Triple(name, x, y, z)) == Ok(Added(log, name, Point(Given(x), Given(y), Given(z))))
  {
    var l1 := Added(log, name, Started(x));
    var l2 := SetIn(l1, name, 'y', y);
    var lx, ly, lz := LineOf(name, 'x', x), LineOf(name, 'y', y), LineOf(name, 'z', z);
    assert Triple(name, x, y, z) == [lx] + ([ly] + ([lz] + []));
    StepX(log, name, x, [ly] + ([lz] + []));
    StepSet(l1, name, 'y', y, [lz] + []);
    StepSet(l2, name, 'z', z, []);
    Filled(log, name, x, y, z);
  }

  /** Starting a point with `x` and setting its `y` and `z` adds the whole point. */
  lemma Filled(log: Log, name: string, x: string, y: string, z: string)
    ensures SetIn(SetIn(Added(log, name, Started(x)), name, 'y', y), name, 'z', z) ==
      Added(log, name, Point(Given(x), Given(y), Given(z)))
  {
    var reg := Register(log, name);
    FillLast(reg.points[name], x, y, z);
  }

  /** Setting `y` and then `z` of a point started with `x` gives the whole point. */
  lemma FillLast(ps: seq<Point>, x: string, y: string, z: string)
    ensures SetLast(SetLast(ps + [Started(x)], 'y', y), 'z', z) == ps + [Point(Given(x), Given(y), Given(z))]
  {
    var qs := ps + [Started(x)];
    assert qs[..|qs| - 1] == ps;
    var rs := SetLast(qs, 'y', y);
    assert rs == ps + [Point(Given(x), Given(y), Zero)];
    assert rs[..|rs| - 1] == ps;
  }

  /** A line that parses hands the rest of the file the log it produced. */
  lemma ParseOne(log: Log, line: string, next: Log, rest: seq<string>)
    requires Step(log, line) == Ok(next)
    ensures ParseAll(log, [line] + rest) == ParseAll(next, rest)
  {
    assert ([line] + rest)[1..] == rest;
  }

  /** A line that parses keeps the keys and their order in step. */
  lemma StepValid(log: Log, line: string)
    requires log.Valid() && Step(log, line).Ok?
    ensures Step(log, line).value.Valid()
  {
    RegisterValid(log, NameOf(line));
  }

  /** So does a whole file that parses: every body seen is a key, listed once, in the order first seen. */
  lemma {:induction false} ParseAllValid(log: Log, lines: seq<string>)
    requires log.Valid() && ParseAll(log, lines).Ok?
    ensures ParseAll(log, lines).value.Valid()
    decreases |lines|
  {
    if lines != [] {
      StepValid(log, lines[0]);
      ParseAllValid(Step(log, lines[0]).value, lines[1..]);
    }
  }

  /** Parsing from line `i` on is parsing line `i`, then the lines after it. */
  lemma ParseFrom(log: Log, lines: seq<string>, i: int)
    requires 0 <= i < |lines|
    ensures ParseAll(log, lines[i..]) ==
      match Step(log, lines[i])
      case Err(e) => Err(e)
      case Ok(next) => ParseAll(next, lines[i + 1..])
  {
    assert lines[i..][1..] == lines[i + 1..];
  }

  /** Parsing two pieces of a file one after the other is parsing them joined. */
  lemma {:induction false} ParseAppend(log: Log, first: seq<string>, second: seq<string>)
    ensures ParseAll(log, first + second) ==
      match ParseAll(log, first)
      case Err(e) => Err(e)
      case Ok(l) => ParseAll(l, second)
    decreases |first|
  {
    if first == [] {
      assert first + second == second;
    } else {
      assert (first + second)[0] == first[0];
      assert (first + second)[1..] == first[1..] + second;
      match Step(log, first[0])
      case Err(e) =>
      case Ok(next) => ParseAppend(next, first[1..], second);
    }
  }

  /** One position the simulation wrote: a body's name and the text of its three coordinates. */
  datatype Entry = Entry(name: string, x: string, y: string, z: string)

  /** The point the parser builds from an entry. */
  function Position(e: Entry): Point {
    Point(Given(e.x), Given(e.y), Given(e.z))
  }

  predicate PlainEntry(e: Entry) {
    Plain(e.name) && Plain(e.x) && Plain(e.y) && Plain(e.z)
  }

  /** The output file: three lines per entry, in order. */
  function Lines(es: seq<Entry>): (r: seq<string>)
    ensures |r| == 3 * |es|
  {
    if es == [] then [] else Triple(es[0].name, es[0].x, es[0].y, es[0].z) + Lines(es[1..])
  }

  /** The log with every entry's point added to its body, in order. */
  function Recorded(log: Log, es: seq<Entry>): (r: Log)
    decreases |es|
  {
    if es == [] then log else Recorded(Added(log, es[0].name, Position(es[0])), es[1..])
  }

  /** The points of the entries for `name`, in order. */
  function Trajectory(es: seq<Entry>, name: string): (ps: seq<Point>)
    ensures |ps| <= |es|
  {
    if es == [] then []
    else (if es[0].name == name then [Position(es[0])] else []) + Trajectory(es[1..], name)
  }

  /** Reading back a whole output file whose names and values are plain records every entry. */
  lemma {:induction false} WrittenRoundTrip(log: Log, es: seq<Entry>)
    requires forall k :: 0 <= k < |es| ==> PlainEntry(es[k])
    ensures ParseAll(log, Lines(es)) == Ok(Recorded(log, es))
    decreases |es|
  {
    if es != [] {
      var e := es[0];
      TripleRoundTrip(log, e.name, e.x, e.y, e.z);
      ParseAppend(log, Triple(e.name, e.x, e.y, e.z), Lines(es[1..]));
      WrittenRoundTrip(Added(log, e.name, Position(e)), es[1..]);
    }
  }

  /** Each body's trajectory gains exactly its own entries' points, in file order. */
  lemma {:induction false} RecordedTrajectory(log: Log, es: seq<Entry>, name: string)
    ensures Recorded(log, es).Of(name) == log.Of(name) + Trajectory(es, name)
    decreases |es|
  {
    if es != [] {
      RecordedTrajectory(Added(log, es[0].name, Position(es[0])), es[1..], name);
      RecordedOne(log, es, name);
    }
  }

  /** The step of that induction: the first entry adds its own point, if it is about `name`, before the rest. */
  lemma RecordedOne(log: Log, es: seq<Entry>, name: string)
    requires es != []
    requires var next := Added(log, es[0].name, Position(es[0]));
      Recorded(next, es[1..]).Of(name) == next.Of(name) + Trajectory(es[1..], name)
    ensures Recorded(log, es).Of(name) == log.Of(name) + Trajectory(es, name)
  {
    var e := es[0];
    var next := Added(log, e.name, Position(e));
    assert Recorded(log, es) == Recorded(next, es[1..]);
    AddedOf(log, e.name, Position(e), name);
    var own := if e.name == name then [Position(e)] else [];
    var tail := Trajectory(es[1..], name);
    assert Trajectory(es, name) == own + tail;
    Regroup(log.Of(name), own, tail);
  }

  lemma Regroup(a: seq<Point>, b: seq<Point>, c: seq<Point>)
    ensures a + b + c == a + (b + c)
  {
  }

  /** The number of `x` lines about `name`. */
  function XCount(lines: seq<string>, name: string): (n: nat)
    ensures n <= |lines|
  {
    if lines == [] then 0
    else (if NameOf(lines[0]) == name && Component(lines[0]) == "x" then 1 else 0) + XCount(lines[1..], name)
  }

  /** A line that parses adds a point to its own body exactly when it is an `x` line, and never to another. */
  lemma StepCount(log: Log, line: string, name: string)
    requires Step(log, line).Ok?
    ensures |Step(log, line).value.Of(name)| ==
      |log.Of(name)| + if NameOf(line) == name && Component(line) == "x" then 1 else 0
  {
  }

  /** On any file that parses, every body has as many points as it has `x` lines. */
  lemma {:induction false} PointsCountX(log: Log, lines: seq<string>, name: string)
    requires ParseAll(log, lines).Ok?
    ensures |ParseAll(log, lines).value.Of(name)| == |log.Of(name)| + XCount(lines, name)
    decreases |lines|
  {
    if lines != [] {
      var next := Step(log, lines[0]).value;
      StepCount(log, lines[0], name);
      PointsCountX(next, lines[1..], name);
    }
  }

  /** A `y` or `z` line for a body with no point yet raises. */
  lemma OrphanCoordinate(log: Log, name: string, axis: char, v: string, rest: seq<string>)
    requires Plain(name) && Plain(v) && (axis == 'y' || axis == 'z') && log.Of(name) == []
    ensures ParseAll(log, [LineOf(name, axis, v)] + rest) == Err(NoPoint)
  {
    OrphanStep(log, name, axis, v);
    StepFails(log, LineOf(name, axis, v), NoPoint, rest);
  }

  lemma OrphanStep(log: Log, name: string, axis: char, v: string)
    requires Plain(name) && Plain(v) && (axis == 'y' || axis == 'z') && log.Of(name) == []
    ensures Step(log, LineOf(name, axis, v)) == Err(NoPoint)
  {
    LineRead(name, [axis], v);
    assert [axis] != "x" by { assert [axis][0] != "x"[0]; }
  }

  /** A line that raises ends the parse with its error. */
  lemma StepFails(log: Log, line: string, e: ParseError, rest: seq<string>)
    requires Step(log, line) == Err(e)
    ensures ParseAll(log, [line] + rest) == Err(e)
  {
    assert ([line] + rest)[0] == line;
  }

  /** A line with no `_` raises before any component is read. */
  lemma NoUnderscore(log: Log, line: string, rest: seq<string>)
    requires '_' !in line
    ensures ParseAll(log, [line] + rest) == Err(NoComponent)
  {
    Text.SplitNone(line, '_');
  }

  /** A line with a `_` but no `=` raises when the value is read. */
  lemma NoEquals(log: Log, line: string, rest: seq<string>)
    requires '_' in line && '=' !in line
    ensures ParseAll(log, [line] + rest) == Err(NoValue)
  {
    Text.SplitNone(line, '=');
  }

  /** Any other component only registers the body. */
  lemma OtherComponent(log: Log, name: string, axis: string, v: string, rest: seq<string>)
    requires Plain(name) && Plain(axis) && Plain(v) && axis != "x" && axis != "y" && axis != "z"
    ensures ParseAll(log, [name + "_" + axis + "=" + v] + rest) == ParseAll(Register(log, name), rest)
  {
    LineRead(name, axis, v);
    ParseOne(log, name + "_" + axis + "=" + v, Register(log, name), rest);
  }

  /** The global `histories` dictionary, updated line by line. */
  class Histories {
    var order: seq<string>
    var points: map<string, seq<Point>>

    function State(): Log
      reads this
    {
      Log(order, points)
    }

    constructor ()
      ensures State() == Empty
    {
      order := [];
      points := map[];
    }

    /**
     * One iteration of parse_input_file's loop. On an error the body is
     * already registered, as the dictionary is written before the line is
     * split further.
     */
    method ParseLine(line: string) returns (error: Option<ParseError>)
      modifies this
      ensures match Step(old(State()), line)
        case Ok(l) => error == None && State() == l
        case Err(e) => error == Some(e) && State() == Register(old(State()), NameOf(line))
    {
      var parts := Text.Split(line, '_');
      var name := parts[0];
      if name !in points {
        order := order + [name];
        points := points[name := []];
      }
      if |parts| < 2 {
        return Some(NoComponent);
      }
      var component := Text.Split(parts[1], '=')[0];
      var pieces := Text.Split(line, '=');
      if |pieces| < 2 {
        return Some(NoValue);
      }
      var v := pieces[1];
      if component == "x" {
        points := points[name := points[name] + [Started(v)]];
      } else if component == "y" || component == "z" {
        var ps := points[name];
        if ps == [] {
          return Some(NoPoint);
        }
        points := points[name := SetLast(ps, component[0], v)];
      }
      return None;
    }

    /** parse_input_file over the lines of the file: stops at the first line that raises. */
    method ParseInputFile(lines: seq<string>) returns (error: Option<ParseError>)
      modifies this
      ensures ParseAll(old(State()), lines).Ok? ==> error == None && State() == ParseAll(old(State()), lines).value
      ensures ParseAll(old(State()), lines).Err? ==> error == Some(ParseAll(old(State()), lines).error)
    {
      var i := 0;
      while i < |lines|
        invariant 0 <= i <= |lines|
        invariant ParseAll(old(State()), lines) == ParseAll(State(), lines[i..])
      {
        ParseFrom(State(), lines, i);
        error := ParseLine(lines[i]);
        if error != None {
          return;
        }
        i := i + 1;
      }
      return None;
    }
  }
}
