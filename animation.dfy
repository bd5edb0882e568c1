/**
 * The frame subsampling of the animating plotter. For every body, in the
 * order the log first saw it, the trajectory is copied into a 3-row array
 * keeping only every `frame_step`-th point, and the largest value of all the
 * arrays, or 0, becomes the axis range. The array has `int(len / step)`
 * columns, the truncated quotient, while the loop writes one column per
 * kept point; the script raises when the two disagree.
 */
module Animation {
  import opened Wrappers
  import CInt
  import TrajectoryLog

  type Point = TrajectoryLog.Point

  /**
   * The exceptions that end the script: division by a zero step, a negative
   * array dimension, a write past the last column, and the maximum of an
   * array with no columns.
   */
  datatype AnimError = ZeroStep | NegativeDimension | ColumnOverflow | EmptyMax

  /** `float()` of a coordinate: the integer 0 a point starts with, or the parse of its text. */
  function Float(c: TrajectoryLog.Coord, toReal: string -> real): real {
    match c
    case Zero => 0.0
    case Given(t) => toReal(t)
  }

  /** Row `row` of the column a point fills: x, y, then z. */
  function Cell(p: Point, row: int, toReal: string -> real): real {
    if row == 0 then Float(p.x, toReal) else if row == 1 then Float(p.y, toReal) else Float(p.z, toReal)
  }

  /** The distance between kept positions: `k % step == 0` holds exactly at the multiples of `|step|`. */
  function Stride(step: int): nat {
    CInt.Abs(step)
  }

  /** Python's `k % step == 0` for a non-zero step is divisibility by the stride. */
  lemma StrideTest(k: nat, step: int)
    requires step != 0
    ensures k % step == 0 <==> k % Stride(step) == 0
  {
    if step < 0 {
      var s := -step;
      var q, r := k / s, k % s;
      assert k == q * s + r;
      var q2, r2 := k / step, k % step;
      assert k == q2 * step + r2 && 0 <= r2 < s;
      var t := q2 + q;
      assert t * s == r2 - r;
      if t > 0 {
        CInt.MulLe(1, t, s);
      } else if t < 0 {
        CInt.MulLe(1, -t, s);
      }
    }
  }

  /** The points whose position `k` is a multiple of the stride `s`, in order. */
  function Kept(ps: seq<Point>, s: nat): (r: seq<Point>)
    requires s > 0
    ensures |r| <= |ps|
  {
    if ps == [] then []
    else Kept(ps[..|ps| - 1], s) + if (|ps| - 1) % s == 0 then [ps[|ps| - 1]] else []
  }

  /** How many of the positions `0 .. n-1` are multiples of `s`. */
  function KeptCount(n: nat, s: nat): nat
    requires s > 0
  {
    if n == 0 then 0 else (n - 1) / s + 1
  }

  /** The column count the array is allocated with: `int(len / step)`, a quotient truncated toward zero. */
  function Columns(n: nat, step: int): int
    requires step != 0
  {
    CInt.Div(n, step)
  }

  /** The exception the filling of one body's array raises, if any. */
  function FrameFault(n: nat, step: int): Option<AnimError> {
    if step == 0 then Some(ZeroStep)
    else if Columns(n, step) < 0 then Some(NegativeDimension)
    else if KeptCount(n, Stride(step)) > Columns(n, step) then Some(ColumnOverflow)
    else None
  }

  /** One more position adds one to the count exactly when it is a multiple of the stride. */
  lemma CountStep(n: nat, s: nat)
    requires s > 0
    ensures KeptCount(n + 1, s) == KeptCount(n, s) + if n % s == 0 then 1 else 0
    ensures n % s == 0 ==> KeptCount(n, s) * s == n
  {
    if n > 0 {
      var d, r := n / s, n % s;
      assert n == d * s + r;
      if r == 0 {
        assert d >= 1;
        assert n - 1 == (d - 1) * s + (s - 1);
        CInt.DivideExactly(n - 1, s, d - 1, s - 1);
      } else {
        CInt.DivideExactly(n - 1, s, d, r - 1);
      }
    }
  }

  /** The kept points are exactly the points at the multiples of the stride, in order. */
  lemma {:induction false} KeptAt(ps: seq<Point>, s: nat)
    requires s > 0
    ensures |Kept(ps, s)| == KeptCount(|ps|, s)
    ensures forall c :: 0 <= c < |Kept(ps, s)| ==> 0 <= c * s < |ps| && Kept(ps, s)[c] == ps[c * s]
    decreases |ps|
  {
    if ps != [] {
      var n := |ps| - 1;
      var front := ps[..n];
      KeptAt(front, s);
      CountStep(n, s);
      forall c | 0 <= c < |Kept(ps, s)|
        ensures 0 <= c * s < |ps| && Kept(ps, s)[c] == ps[c * s]
      {
        if c < |Kept(front, s)| {
          assert Kept(ps, s)[c] == Kept(front, s)[c];
        } else {
          assert c == KeptCount(n, s);
        }
      }
    }
  }

  /** Every column the allocation makes is filled: the loop never writes fewer columns than there are. */
  lemma ColumnsCovered(n: nat, step: int)
    requires step != 0 && Columns(n, step) >= 0
    ensures Columns(n, step) <= KeptCount(n, Stride(step))
  {
    if step > 0 {
      CInt.NonNegativeAgrees(n, step);
      if n > 0 {
        CountStep(n - 1, step);
        CInt.LastBlock(n - 1, step, n / step - 1);
        assert (n / step - 1) * step <= n - 1 by {
          assert (n / step) * step <= n;
        }
      }
    }
  }

  /**
   * The array fits its points exactly when the step is positive and divides
   * the trajectory's length, or the step is negative and the trajectory is
   * empty.
   */
  lemma FrameFaultIff(n: nat, step: int)
    ensures FrameFault(n, step) == None <==> (step > 0 && n % step == 0) || (step < 0 && n == 0)
  {
    if step > 0 {
      PositiveFit(n, step);
    } else if step < 0 {
      NegativeFit(n, step);
    }
  }

  lemma PositiveFit(n: nat, step: int)
    requires step > 0
    ensures Columns(n, step) == n / step
    ensures KeptCount(n, Stride(step)) <= Columns(n, step) <==> n % step == 0
  {
    CInt.NonNegativeAgrees(n, step);
    if n > 0 {
      var d, r := n / step, n % step;
      assert n == d * step + r;
      if r == 0 {
        assert n - 1 == (d - 1) * step + (step - 1);
        CInt.DivideExactly(n - 1, step, d - 1, step - 1);
      } else {
        CInt.DivideExactly(n - 1, step, d, r - 1);
      }
    }
  }

  lemma NegativeFit(n: nat, step: int)
    requires step < 0
    ensures FrameFault(n, step) == None <==> n == 0
  {
    var s := Stride(step);
    if 0 < n < s {
      CInt.DivideExactly(n, s, 0, n);
    } else if n >= s {
      CInt.LastBlock(n, s, 1);
    }
  }

  /** The largest value of the non-empty list of points' cells. */
  function MaxCells(ps: seq<Point>, toReal: string -> real): (m: real)
    requires ps != []
    ensures forall c, row :: 0 <= c < |ps| && 0 <= row < 3 ==> Cell(ps[c], row, toReal) <= m
    ensures exists c, row :: 0 <= c < |ps| && 0 <= row < 3 && Cell(ps[c], row, toReal) == m
  {
    var p := ps[|ps| - 1];
    var own := Max(Max(Cell(p, 0, toReal), Cell(p, 1, toReal)), Cell(p, 2, toReal));
    assert own == Cell(p, 0, toReal) || own == Cell(p, 1, toReal) || own == Cell(p, 2, toReal);
    if |ps| == 1 then own
    else
      var front := ps[..|ps| - 1];
      var m := Max(MaxCells(front, toReal), own);
      assert forall c :: 0 <= c < |front| ==> ps[c] == front[c];
      m
  }

  function Max(a: real, b: real): real {
    if a < b then b else a
  }

  /** The maximum of one body's array, or the exception the script raises. */
  function KeyMax(ps: seq<Point>, step: int, toReal: string -> real): Result<real, AnimError> {
    if FrameFault(|ps|, step).Some? then Err(FrameFault(|ps|, step).value)
    else if Kept(ps, Stride(step)) == [] then Err(EmptyMax)
    else Ok(MaxCells(Kept(ps, Stride(step)), toReal))
  }

  /** `max_range` after the bodies `keys`, in order, or the first exception. */
  function Range(log: TrajectoryLog.Log, keys: seq<string>, step: int, toReal: string -> real): Result<real, AnimError> {
    if keys == [] then Ok(0.0)
    else
      match Range(log, keys[..|keys| - 1], step, toReal)
      case Err(e) => Err(e)
      case Ok(acc) =>
        match KeyMax(log.Of(keys[|keys| - 1]), step, toReal)
        case Err(e) => Err(e)
        case Ok(m) => Ok(if m > acc then m else acc)
  }

  /** The cells of body `key`'s array. */
  function Column(log: TrajectoryLog.Log, key: string, step: int, toReal: string -> real, c: int, row: int): real
    requires step != 0 && 0 <= c < |Kept(log.Of(key), Stride(step))|
  {
    Cell(Kept(log.Of(key), Stride(step))[c], row, toReal)
  }

  /** The axis range is at least 0 and at least every value of every body's array. */
  lemma {:induction false} RangeBounds(log: TrajectoryLog.Log, keys: seq<string>, step: int, toReal: string -> real)
    requires Range(log, keys, step, toReal).Ok?
    ensures Range(log, keys, step, toReal).value >= 0.0
    ensures step != 0 ==> forall k :: 0 <= k < |keys| ==> ColumnsAtMost(log, keys[k], step, toReal, Range(log, keys, step, toReal).value)
    decreases |keys|
  {
    if keys != [] {
      var front := keys[..|keys| - 1];
      var last := keys[|keys| - 1];
      RangeBounds(log, front, step, toReal);
      var acc := Range(log, front, step, toReal).value;
      var m := KeyMax(log.Of(last), step, toReal).value;
      var v := Range(log, keys, step, toReal).value;
      assert acc <= v && m <= v;
      if step != 0 {
        forall k | 0 <= k < |front|
          ensures ColumnsAtMost(log, front[k], step, toReal, v)
        {
          ColumnsRaise(log, front[k], step, toReal, acc, v);
        }
        ColumnsBelow(log, front, keys, step, toReal, v);
      }
    }
  }

  /** Every value in body `key`'s array is at most `v`. */
  predicate ColumnsAtMost(log: TrajectoryLog.Log, key: string, step: int, toReal: string -> real, v: real)
    requires step != 0
  {
    forall c, row :: 0 <= c < |Kept(log.Of(key), Stride(step))| && 0 <= row < 3 ==> Column(log, key, step, toReal, c, row) <= v
  }

  /** A bound on the arrays of the bodies before the last and on the last body's array bounds them all. */
  lemma ColumnsBelow(log: TrajectoryLog.Log, front: seq<string>, keys: seq<string>, step: int, toReal: string -> real, v: real)
    requires step != 0 && keys != [] && front == keys[..|keys| - 1]
    requires forall k :: 0 <= k < |front| ==> ColumnsAtMost(log, front[k], step, toReal, v)
    requires ColumnsAtMost(log, keys[|keys| - 1], step, toReal, v)
    ensures forall k :: 0 <= k < |keys| ==> ColumnsAtMost(log, keys[k], step, toReal, v)
  {
    forall k | 0 <= k < |keys|
      ensures ColumnsAtMost(log, keys[k], step, toReal, v)
    {
      if k < |front| {
        assert keys[k] == front[k];
      }
    }
  }

  /** Every value at most `acc` is at most any `v` above it. */
  lemma ColumnsRaise(log: TrajectoryLog.Log, key: string, step: int, toReal: string -> real, acc: real, v: real)
    requires step != 0 && acc <= v && ColumnsAtMost(log, key, step, toReal, acc)
    ensures ColumnsAtMost(log, key, step, toReal, v)
  {
  }

  /** The axis range is 0 or one of the values in the arrays. */
  lemma {:induction false} RangeAttained(log: TrajectoryLog.Log, keys: seq<string>, step: int, toReal: string -> real)
    requires Range(log, keys, step, toReal).Ok?
    ensures Range(log, keys, step, toReal).value == 0.0 || (step != 0 &&
      exists k, c, row :: 0 <= k < |keys| && 0 <= c < |Kept(log.Of(keys[k]), Stride(step))| && 0 <= row < 3 &&
        Column(log, keys[k], step, toReal, c, row) == Range(log, keys, step, toReal).value)
    decreases |keys|
  {
    if keys != [] {
      var front := keys[..|keys| - 1];
      var last := keys[|keys| - 1];
      RangeAttained(log, front, step, toReal);
      var acc := Range(log, front, step, toReal).value;
      var m := KeyMax(log.Of(last), step, toReal).value;
      var v := Range(log, keys, step, toReal).value;
      if m > acc {
        var kept := Kept(log.Of(last), Stride(step));
        var c, row :| 0 <= c < |kept| && 0 <= row < 3 && Cell(kept[c], row, toReal) == m;
        assert Column(log, keys[|keys| - 1], step, toReal, c, row) == v;
      } else if acc != 0.0 {
        var k, c, row :| 0 <= k < |front| && 0 <= c < |Kept(log.Of(front[k]), Stride(step))| && 0 <= row < 3 &&
          Column(log, front[k], step, toReal, c, row) == acc;
        assert keys[k] == front[k];
      }
    }
  }

  /** A body with no points stops the script: its array has no columns to take the maximum of. */
  lemma EmptyTrajectory(log: TrajectoryLog.Log, keys: seq<string>, step: int, toReal: string -> real)
    requires step != 0 && keys != [] && log.Of(keys[|keys| - 1]) == []
    requires Range(log, keys[..|keys| - 1], step, toReal).Ok?
    ensures Range(log, keys, step, toReal) == Err(EmptyMax)
  {
    FrameFaultIff(0, step);
  }

  /**
   * One body's pass of setUpAnimation's loop: allocates the array and fills
   * one column per kept point, raising as the script does.
   */
  method Frames(ps: seq<Point>, step: int, toReal: string -> real) returns (r: Result<array2<real>, AnimError>)
    ensures r.Err? <==> FrameFault(|ps|, step).Some?
    ensures r.Err? ==> r.error == FrameFault(|ps|, step).value
    ensures r.Ok? ==> step != 0 && fresh(r.value) && r.value.Length0 == 3 && r.value.Length1 == |Kept(ps, Stride(step))|
    ensures r.Ok? ==> forall row, c :: 0 <= row < 3 && 0 <= c < r.value.Length1 ==>
      r.value[row, c] == Cell(Kept(ps, Stride(step))[c], row, toReal)
  {
    if step == 0 {
      return Err(ZeroStep);
    }
    var columns := CInt.Div(|ps|, step);
    if columns < 0 {
      return Err(NegativeDimension);
    }
    var a := new real[3, columns];
    var i := 0;
    var total := 0;
    while total < |ps|
      invariant 0 <= total <= |ps|
      invariant i == |Kept(ps[..total], Stride(step))| <= columns
      invariant forall row, c :: 0 <= row < 3 && 0 <= c < i ==> a[row, c] == Cell(Kept(ps[..total], Stride(step))[c], row, toReal)
    {
      var entry := ps[total];
      assert ps[..total + 1][..total] == ps[..total];
      StrideTest(total, step);
      if total % step == 0 {
        if i >= columns {
          OverflowAhead(ps, step, total);
          return Err(ColumnOverflow);
        }
        a[0, i] := Float(entry.x, toReal);
        a[1, i] := Float(entry.y, toReal);
        a[2, i] := Float(entry.z, toReal);
        i := i + 1;
      }
      total := total + 1;
    }
    assert ps[..total] == ps;
    KeptAt(ps, Stride(step));
    ColumnsCovered(|ps|, step);
    return Ok(a);
  }

  /** A kept position with no column left means the script will overflow the array. */
  lemma OverflowAhead(ps: seq<Point>, step: int, total: nat)
    requires step != 0 && total < |ps| && total % Stride(step) == 0 && Columns(|ps|, step) >= 0
    requires |Kept(ps[..total], Stride(step))| >= Columns(|ps|, step)
    ensures FrameFault(|ps|, step) == Some(ColumnOverflow)
  {
    var s := Stride(step);
    KeptAt(ps[..total], s);
    CountStep(total, s);
    assert (total / s) * s <= total;
    CInt.LastBlock(|ps| - 1, s, total / s);
  }

  /** `.max()` of an array: raises when it has no columns. */
  method ArrayMax(a: array2<real>) returns (r: Result<real, AnimError>)
    requires a.Length0 == 3
    ensures r.Err? <==> a.Length1 == 0
    ensures r.Err? ==> r.error == EmptyMax
    ensures r.Ok? ==> forall row, c :: 0 <= row < 3 && 0 <= c < a.Length1 ==> a[row, c] <= r.value
    ensures r.Ok? ==> exists row, c :: 0 <= row < 3 && 0 <= c < a.Length1 && a[row, c] == r.value
  {
    if a.Length1 == 0 {
      return Err(EmptyMax);
    }
    var m := a[0, 0];
    ghost var wr, wc := 0, 0;
    var c := 0;
    while c < a.Length1
      invariant 0 <= c <= a.Length1
      invariant 0 <= wr < 3 && 0 <= wc < a.Length1 && a[wr, wc] == m
      invariant forall row, k :: 0 <= row < 3 && 0 <= k < c ==> a[row, k] <= m
    {
      var row := 0;
      while row < 3
        invariant 0 <= row <= 3
        invariant 0 <= wr < 3 && 0 <= wc < a.Length1 && a[wr, wc] == m
        invariant forall q, k :: 0 <= q < 3 && 0 <= k < c ==> a[q, k] <= m
        invariant forall q :: 0 <= q < row ==> a[q, c] <= m
      {
        if a[row, c] > m {
          m := a[row, c];
          wr, wc := row, c;
        }
        row := row + 1;
      }
      c := c + 1;
    }
    return Ok(m);
  }

  /**
   * The subsampling and range loop of setUpAnimation: every body of the log,
   * in the order it was first seen, gets its array, and `max_range` follows
   * the largest array maximum.
   */
  method SetUpAnimation(log: TrajectoryLog.Log, step: int, toReal: string -> real) returns (r: Result<real, AnimError>)
    ensures r == Range(log, log.order, step, toReal)
  {
    var maxRange := 0.0;
    var i := 0;
    while i < |log.order|
      invariant 0 <= i <= |log.order|
      invariant Range(log, log.order[..i], step, toReal) == Ok(maxRange)
    {
      RangeNext(log, log.order, i, step, toReal);
      var m := BodyMax(log.Of(log.order[i]), step, toReal);
      if m.Err? {
        RangeStops(log, log.order, i + 1, step, toReal);
        return Err(m.error);
      }
      if m.value > maxRange {
        maxRange := m.value;
      }
      i := i + 1;
    }
    assert log.order[..i] == log.order;
    return Ok(maxRange);
  }

  /** One body's pass: its array, then the maximum over it, or the exception either raises. */
  method BodyMax(ps: seq<Point>, step: int, toReal: string -> real) returns (r: Result<real, AnimError>)
    ensures r == KeyMax(ps, step, toReal)
  {
    var frames := Frames(ps, step, toReal);
    if frames.Err? {
      return Err(frames.error);
    }
    var m := ArrayMax(frames.value);
    if m.Err? {
      return Err(EmptyMax);
    }
    MaxOfCells(Kept(ps, Stride(step)), toReal, m.value);
    return Ok(m.value);
  }

  /** The range after one more body. */
  lemma RangeNext(log: TrajectoryLog.Log, keys: seq<string>, i: int, step: int, toReal: string -> real)
    requires 0 <= i < |keys|
    ensures Range(log, keys[..i + 1], step, toReal) ==
      match Range(log, keys[..i], step, toReal)
      case Err(e) => Err(e)
      case Ok(acc) =>
        match KeyMax(log.Of(keys[i]), step, toReal)
        case Err(e) => Err(e)
        case Ok(m) => Ok(if m > acc then m else acc)
  {
    assert keys[..i + 1][..i] == keys[..i];
  }

  /** A value that bounds every cell and is one of them is the maximum. */
  lemma MaxOfCells(ps: seq<Point>, toReal: string -> real, m: real)
    requires ps != []
    requires forall c, row :: 0 <= c < |ps| && 0 <= row < 3 ==> Cell(ps[c], row, toReal) <= m
    requires exists c, row :: 0 <= c < |ps| && 0 <= row < 3 && Cell(ps[c], row, toReal) == m
    ensures MaxCells(ps, toReal) == m
  {
  }

  /** Once a body raises, the bodies after it are never reached. */
  lemma {:induction false} RangeStops(log: TrajectoryLog.Log, keys: seq<string>, j: nat, step: int, toReal: string -> real)
    requires j <= |keys| && Range(log, keys[..j], step, toReal).Err?
    ensures Range(log, keys, step, toReal) == Range(log, keys[..j], step, toReal)
    decreases |keys| - j
  {
    if j < |keys| {
      var longer := keys[..j + 1];
      assert longer[..j] == keys[..j];
      RangeStops(log, keys, j + 1, step, toReal);
    } else {
      assert keys[..j] == keys;
    }
  }
}
