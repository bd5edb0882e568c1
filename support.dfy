/**
 * What happens to the bodies of a colliding pair: the collision test, the
 * elastic bounce, absorption by a large body, the asteroid split and the
 * random arrival of a comet. Each operation takes the bodies as values and
 * returns them as they are afterwards; the random numbers the source draws
 * are parameters.
 */
module Support {
  import opened Bodies
  import opened Wrappers

  /** `|a - b|^2`. */
  function SqDistance(a: Vec3, b: Vec3): (d: real)
    ensures d >= 0.0
  {
    var r := Sub(a, b);
    Dot(r, r)
  }

  /**
   * The centres of the two spheres are closer than the sum of their radii,
   * stated on the squared distance (`CollisionIffCloser` relates it to the
   * distance itself).
   */
  predicate CheckForCollision(b1: Body, b2: Body) {
    var s := b1.radius + b2.radius;
    0.0 < s && SqDistance(b1.position, b2.position) < s * s
  }

  lemma SqDistanceSymmetric(a: Vec3, b: Vec3)
    ensures SqDistance(a, b) == SqDistance(b, a)
  {
    assert (a.x - b.x) * (a.x - b.x) == (b.x - a.x) * (b.x - a.x);
    assert (a.y - b.y) * (a.y - b.y) == (b.y - a.y) * (b.y - a.y);
    assert (a.z - b.z) * (a.z - b.z) == (b.z - a.z) * (b.z - a.z);
  }

  /** The test does not depend on the order of the two bodies. */
  lemma CollisionSymmetric(b1: Body, b2: Body)
    ensures CheckForCollision(b1, b2) == CheckForCollision(b2, b1)
  {
    SqDistanceSymmetric(b1.position, b2.position);
  }

  /** For the distance `dist` between the centres, the test is `dist < r1 + r2`. */
  lemma CollisionIffCloser(b1: Body, b2: Body, dist: real)
    requires 0.0 <= dist && dist * dist == SqDistance(b1.position, b2.position)
    ensures CheckForCollision(b1, b2) <==> dist < b1.radius + b2.radius
  {
    var s := b1.radius + b2.radius;
    if dist < s {
      var lo, mid, hi := dist * dist, dist * s, s * s;
      assert lo <= mid;
      assert mid < hi;
    } else if 0.0 < s {
      var lo, mid, hi := s * s, s * dist, dist * dist;
      assert lo <= mid;
      assert mid <= hi;
    }
  }

  function Sphere(at: Vec3, radius: real): Body {
    EmptySlot.(position := at, radius := radius)
  }

  /** Two spheres of radius 3 collide 5 apart, and do not when they touch (6) or are 7 apart. */
  lemma CollisionExamples()
    ensures CheckForCollision(Sphere(Origin, 3.0), Sphere(Vec3(5.0, 0.0, 0.0), 3.0))
    ensures !CheckForCollision(Sphere(Origin, 3.0), Sphere(Vec3(6.0, 0.0, 0.0), 3.0))
    ensures !CheckForCollision(Sphere(Origin, 3.0), Sphere(Vec3(0.0, 7.0, 0.0), 3.0))
  {
  }

  /** The coefficient `(2 m2 / (m1 + m2)) (<v1 - v2, p1 - p2> / |p1 - p2|^2)` of the elastic update. */
  function ElasticFactor(m1: real, m2: real, p1: Vec3, p2: Vec3, v1: Vec3, v2: Vec3): real
    requires SqDistance(p1, p2) != 0.0 && m1 + m2 != 0.0
  {
    ((2.0 * m2) / (m1 + m2)) * (Dot(Sub(v1, v2), Sub(p1, p2)) / SqDistance(p1, p2))
  }

  /**
   * The velocity a body of mass `m1` at `p1` moving at `v1` leaves with after
   * an elastic collision with one of mass `m2` at `p2` moving at `v2`:
   * `v1 - (2 m2 / (m1 + m2)) (<v1 - v2, p1 - p2> / |p1 - p2|^2) (p1 - p2)`.
   * None when the centres coincide or the masses sum to zero: C then divides
   * by zero and the velocity is not a finite number.
   */
  function Elastic(m1: real, m2: real, p1: Vec3, p2: Vec3, v1: Vec3, v2: Vec3): (v: Option<Vec3>)
    ensures v.None? <==> SqDistance(p1, p2) == 0.0 || m1 + m2 == 0.0
  {
    if SqDistance(p1, p2) == 0.0 || m1 + m2 == 0.0 then None
    else Some(Sub(v1, Scale(ElasticFactor(m1, m2, p1, p2, v1, v2), Sub(p1, p2))))
  }

  /** Only the component along the line of centres changes: any direction `w` across it keeps its component. */
  lemma ElasticKeepsTangent(m1: real, m2: real, p1: Vec3, p2: Vec3, v1: Vec3, v2: Vec3, w: Vec3)
    requires Elastic(m1, m2, p1, p2, v1, v2).Some? && Dot(w, Sub(p1, p2)) == 0.0
    ensures Dot(Elastic(m1, m2, p1, p2, v1, v2).value, w) == Dot(v1, w)
  {
    DotAlong(v1, Sub(p1, p2), ElasticFactor(m1, m2, p1, p2, v1, v2), w);
  }

  /** update_body_momentum_elastic_collision(b1, b2): the velocity it writes to b1's acceleration fields. */
  function ElasticVelocity(b1: Body, b2: Body): Option<Vec3> {
    Elastic(b1.mass, b2.mass, b1.position, b2.position, b1.velocity, b2.velocity)
  }

  lemma DotSub(v1: Vec3, v2: Vec3, p: Vec3)
    ensures Dot(Sub(v1, v2), p) == Dot(v1, p) - Dot(v2, p)
  {
  }

  lemma DotAlong(v: Vec3, p: Vec3, k: real, w: Vec3)
    ensures Dot(Sub(v, Scale(k, p)), w) == Dot(v, w) - k * Dot(w, p)
  {
  }

  /** `|v - a p|^2` expanded, for `f == |v - a p|^2`, `e == |v|^2`, `x == <v, p>` and `d == |p|^2`. */
  lemma SquareExpandSub(v: Vec3, p: Vec3, a: real, f: real, e: real, x: real, d: real)
    requires f == Dot(Sub(v, Scale(a, p)), Sub(v, Scale(a, p)))
    requires e == Dot(v, v) && x == Dot(v, p) && d == Dot(p, p)
    ensures f == e - 2.0 * a * x + a * a * d
  {
    assert (v.x - a * p.x) * (v.x - a * p.x) == v.x * v.x - 2.0 * a * (v.x * p.x) + a * a * (p.x * p.x);
    assert (v.y - a * p.y) * (v.y - a * p.y) == v.y * v.y - 2.0 * a * (v.y * p.y) + a * a * (p.y * p.y);
    assert (v.z - a * p.z) * (v.z - a * p.z) == v.z * v.z - 2.0 * a * (v.z * p.z) + a * a * (p.z * p.z);
  }

  /** `|v + b p|^2` expanded, for `f == |v + b p|^2`, `e == |v|^2`, `x == <v, p>` and `d == |p|^2`. */
  lemma SquareExpandAdd(v: Vec3, p: Vec3, b: real, f: real, e: real, x: real, d: real)
    requires f == Dot(Add(v, Scale(b, p)), Add(v, Scale(b, p)))
    requires e == Dot(v, v) && x == Dot(v, p) && d == Dot(p, p)
    ensures f == e + 2.0 * b * x + b * b * d
  {
    assert (v.x + b * p.x) * (v.x + b * p.x) == v.x * v.x + 2.0 * b * (v.x * p.x) + b * b * (p.x * p.x);
    assert (v.y + b * p.y) * (v.y + b * p.y) == v.y * v.y + 2.0 * b * (v.y * p.y) + b * b * (p.y * p.y);
    assert (v.z + b * p.z) * (v.z + b * p.z) == v.z * v.z + 2.0 * b * (v.z * p.z) + b * b * (p.z * p.z);
  }

  lemma ScaleSubScaled(k: real, v: Vec3, a: real, p: Vec3)
    ensures Scale(k, Sub(v, Scale(a, p))) == Sub(Scale(k, v), Scale(k * a, p))
  {
    assert k * (v.x - a * p.x) == k * v.x - (k * a) * p.x;
    assert k * (v.y - a * p.y) == k * v.y - (k * a) * p.y;
    assert k * (v.z - a * p.z) == k * v.z - (k * a) * p.z;
  }

  lemma ScaleAddScaled(k: real, v: Vec3, a: real, p: Vec3)
    ensures Scale(k, Add(v, Scale(a, p))) == Add(Scale(k, v), Scale(k * a, p))
  {
    assert k * (v.x + a * p.x) == k * v.x + (k * a) * p.x;
    assert k * (v.y + a * p.y) == k * v.y + (k * a) * p.y;
    assert k * (v.z + a * p.z) == k * v.z + (k * a) * p.z;
  }

  /** The exchange of two bodies whose velocities change by `-a p` and `+b p` with `m1 a == m2 b` conserves momentum. */
  lemma ExchangeMomentum(m1: real, m2: real, v1: Vec3, v2: Vec3, p: Vec3, a: real, b: real)
    requires m1 * a == m2 * b
    ensures Add(Scale(m1, Sub(v1, Scale(a, p))), Scale(m2, Add(v2, Scale(b, p))))
         == Add(Scale(m1, v1), Scale(m2, v2))
  {
    ScaleSubScaled(m1, v1, a, p);
    ScaleAddScaled(m2, v2, b, p);
  }

  lemma ScalarEnergy(m1: real, m2: real, e1: real, e2: real, x1: real, x2: real, d: real, a: real, b: real, f1: real, f2: real)
    requires m1 * a == m2 * b
    requires (a + b) * d == 2.0 * (x1 - x2)
    requires f1 == e1 - 2.0 * a * x1 + a * a * d
    requires f2 == e2 + 2.0 * b * x2 + b * b * d
    ensures m1 * f1 + m2 * f2 == m1 * e1 + m2 * e2
  {
    var q := m1 * a;
    assert m1 * (a * a * d) == q * a * d;
    assert m2 * (b * b * d) == q * b * d;
    assert m1 * (2.0 * a * x1) == 2.0 * q * x1;
    assert m2 * (2.0 * b * x2) == 2.0 * q * x2;
    assert q * a * d + q * b * d == q * ((a + b) * d);
  }

  /** The same exchange conserves kinetic energy when also `(a + b) |p|^2 == 2 <v1 - v2, p>`. */
  lemma ExchangeEnergy(m1: real, m2: real, v1: Vec3, v2: Vec3, p: Vec3, a: real, b: real, f1: real, f2: real)
    requires m1 * a == m2 * b
    requires (a + b) * Dot(p, p) == 2.0 * (Dot(v1, p) - Dot(v2, p))
    requires f1 == Dot(Sub(v1, Scale(a, p)), Sub(v1, Scale(a, p)))
    requires f2 == Dot(Add(v2, Scale(b, p)), Add(v2, Scale(b, p)))
    ensures m1 * f1 + m2 * f2 == m1 * Dot(v1, v1) + m2 * Dot(v2, v2)
  {
    SquareExpandSub(v1, p, a, f1, Dot(v1, v1), Dot(v1, p), Dot(p, p));
    SquareExpandAdd(v2, p, b, f2, Dot(v2, v2), Dot(v2, p), Dot(p, p));
    ScalarEnergy(m1, m2, Dot(v1, v1), Dot(v2, v2), Dot(v1, p), Dot(v2, p), Dot(p, p), a, b, f1, f2);
  }

  /** The coefficients of the two elastic updates meet what the exchange lemmas need. */
  lemma {:induction false} ElasticCoefficients(m1: real, m2: real, dot: real, d: real)
    requires d != 0.0 && m1 + m2 != 0.0
    ensures var c := dot / d;
      var a := ((2.0 * m2) / (m1 + m2)) * c;
      var b := ((2.0 * m1) / (m2 + m1)) * c;
      m1 * a == m2 * b && (a + b) * d == 2.0 * dot
  {
    var m := m1 + m2;
    assert m2 + m1 == m;
    var c := dot / d;
    assert c * d == dot;
    var a := ((2.0 * m2) / m) * c;
    var b := ((2.0 * m1) / m) * c;
    assert (2.0 * m2) / m * m == 2.0 * m2;
    assert (2.0 * m1) / m * m == 2.0 * m1;
    assert a * m == 2.0 * m2 * c;
    assert b * m == 2.0 * m1 * c;
    assert (m1 * a) * m == (m2 * b) * m;
    assert (a + b) * m == 2.0 * c * m;
  }

  /** Both updates of a pair see the same squared distance and relative approach speed. */
  lemma SeenFromOther(p1: Vec3, p2: Vec3, v1: Vec3, v2: Vec3)
    ensures SqDistance(p2, p1) == SqDistance(p1, p2)
    ensures Dot(Sub(v2, v1), Sub(p2, p1)) == Dot(Sub(v1, v2), Sub(p1, p2))
  {
    SqDistanceSymmetric(p1, p2);
  }

  /** The two elastic updates of a pair move the velocities along `p1 - p2`, by `-a` and `+b` times it. */
  lemma ElasticUpdates(m1: real, m2: real, p1: Vec3, p2: Vec3, v1: Vec3, v2: Vec3, a: real, b: real)
    requires Elastic(m1, m2, p1, p2, v1, v2).Some?
    requires a == ElasticFactor(m1, m2, p1, p2, v1, v2)
    requires SqDistance(p2, p1) != 0.0 && m2 + m1 != 0.0 && b == ElasticFactor(m2, m1, p2, p1, v2, v1)
    ensures Elastic(m2, m1, p2, p1, v2, v1).Some?
    ensures Elastic(m1, m2, p1, p2, v1, v2).value == Sub(v1, Scale(a, Sub(p1, p2)))
    ensures Elastic(m2, m1, p2, p1, v2, v1).value == Add(v2, Scale(b, Sub(p1, p2)))
  {
    assert Sub(v2, Scale(b, Sub(p2, p1))) == Add(v2, Scale(b, Sub(p1, p2)));
  }

  /** Those coefficients are the ones `ExchangeMomentum` and `ExchangeEnergy` need. */
  lemma {:induction false} ElasticBalance(m1: real, m2: real, p1: Vec3, p2: Vec3, v1: Vec3, v2: Vec3, a: real, b: real)
    requires SqDistance(p1, p2) != 0.0 && m1 + m2 != 0.0 && a == ElasticFactor(m1, m2, p1, p2, v1, v2)
    requires SqDistance(p2, p1) != 0.0 && m2 + m1 != 0.0 && b == ElasticFactor(m2, m1, p2, p1, v2, v1)
    ensures m1 * a == m2 * b
    ensures (a + b) * Dot(Sub(p1, p2), Sub(p1, p2)) == 2.0 * (Dot(v1, Sub(p1, p2)) - Dot(v2, Sub(p1, p2)))
  {
    SeenFromOther(p1, p2, v1, v2);
    var p := Sub(p1, p2);
    var d := SqDistance(p1, p2);
    var dot := Dot(Sub(v1, v2), p);
    ElasticCoefficients(m1, m2, dot, d);
    assert b == ((2.0 * m1) / (m2 + m1)) * (dot / d);
    assert d == Dot(p, p);
    DotSub(v1, v2, p);
  }

  /**
   * Applying the elastic update to both bodies, each from the velocities
   * before the collision, conserves momentum `m1 v1 + m2 v2` and kinetic
   * energy `m1 |v1|^2 + m2 |v2|^2`.
   */
  lemma {:induction false} ElasticConserves(m1: real, m2: real, p1: Vec3, p2: Vec3, v1: Vec3, v2: Vec3)
    requires Elastic(m1, m2, p1, p2, v1, v2).Some?
    ensures Elastic(m2, m1, p2, p1, v2, v1).Some?
    ensures var u1 := Elastic(m1, m2, p1, p2, v1, v2).value;
      var u2 := Elastic(m2, m1, p2, p1, v2, v1).value;
      Add(Scale(m1, u1), Scale(m2, u2)) == Add(Scale(m1, v1), Scale(m2, v2)) &&
      m1 * Dot(u1, u1) + m2 * Dot(u2, u2) == m1 * Dot(v1, v1) + m2 * Dot(v2, v2)
  {
    SeenFromOther(p1, p2, v1, v2);
    var a := ElasticFactor(m1, m2, p1, p2, v1, v2);
    var b := ElasticFactor(m2, m1, p2, p1, v2, v1);
    ElasticUpdates(m1, m2, p1, p2, v1, v2, a, b);
    ElasticBalance(m1, m2, p1, p2, v1, v2, a, b);
    ExchangeMomentum(m1, m2, v1, v2, Sub(p1, p2), a, b);
    ExchangeEnergy(m1, m2, v1, v2, Sub(p1, p2), a, b,
      Dot(Elastic(m1, m2, p1, p2, v1, v2).value, Elastic(m1, m2, p1, p2, v1, v2).value),
      Dot(Elastic(m2, m1, p2, p1, v2, v1).value, Elastic(m2, m1, p2, p1, v2, v1).value));
  }

  /**
   * An absorption: the large body takes the small body's mass and counts the
   * hit (as an asteroid hit when the small body is an asteroid, otherwise as a
   * comet hit); the small body stops being active.
   */
  function PlanetAsteroid(large: Body, small: Body): (r: (Body, Body))
    ensures r.0.mass == large.mass + small.mass
    ensures r.0.collidedAsteroids + r.0.collidedComets == large.collidedAsteroids + large.collidedComets + 1
    ensures r.0.collidedAsteroids == large.collidedAsteroids + (if small.kind == Asteroid then 1 else 0)
    ensures r.0.(mass := large.mass, collidedAsteroids := large.collidedAsteroids, collidedComets := large.collidedComets) == large
    ensures r.1 == small.(active := false)
  {
    var large' := large.(mass := large.mass + small.mass);
    var large'' :=
      if small.kind == Asteroid then large'.(collidedAsteroids := large.collidedAsteroids + 1)
      else large'.(collidedComets := large.collidedComets + 1);
    (large'', small.(active := false))
  }

  /** The outcome of an asteroid–asteroid collision: the two bodies and whether they split. */
  datatype Bounce = Bounce(first: Body, second: Body, split: bool)

  /**
   * Two asteroids collide. When the draw is a multiple of 10 both are
   * destroyed and will be split; otherwise each bounces elastically, the
   * elastic update being written to the acceleration fields and then copied
   * to the velocities. None when an elastic update is not finite.
   */
  function AsteroidAsteroid(b1: Body, b2: Body, draw: nat): (r: Option<Bounce>)
    ensures r.Some? && r.value.split <==> draw % 10 == 0
    ensures r.None? <==> draw % 10 != 0 && ElasticVelocity(b1, b2).None?
    ensures r.Some? && r.value.split ==> r.value.first == b1.(active := false) && r.value.second == b2.(active := false)
    ensures r.Some? && !r.value.split ==>
      r.value.first.(velocity := b1.velocity, acceleration := b1.acceleration) == b1 &&
      r.value.second.(velocity := b2.velocity, acceleration := b2.acceleration) == b2 &&
      r.value.first.velocity == r.value.first.acceleration &&
      r.value.second.velocity == r.value.second.acceleration
  {
    if draw % 10 == 0 then Some(Bounce(b1.(active := false), b2.(active := false), true))
    else
      match ElasticVelocity(b1, b2)
      case None => None
      case Some(v1) =>
        var b1' := b1.(acceleration := v1);
        match ElasticVelocity(b2, b1')
        case None => (SeenFromOther(b1.position, b2.position, b1.velocity, b2.velocity); assert false; None)
        case Some(v2) =>
          var b2' := b2.(acceleration := v2);
          Some(Bounce(b1'.(velocity := b1'.acceleration), b2'.(velocity := b2'.acceleration), false))
  }

  /**
   * In a bounce both new velocities are the elastic updates computed from the
   * velocities before the collision, although the source updates the bodies
   * one after the other; so the bounce conserves momentum and energy.
   */
  lemma AsteroidBounceSimultaneous(b1: Body, b2: Body, draw: nat)
    requires AsteroidAsteroid(b1, b2, draw).Some? && !AsteroidAsteroid(b1, b2, draw).value.split
    ensures AsteroidAsteroid(b1, b2, draw).value.first.velocity == ElasticVelocity(b1, b2).value
    ensures AsteroidAsteroid(b1, b2, draw).value.second.velocity == ElasticVelocity(b2, b1).value
    ensures var r := AsteroidAsteroid(b1, b2, draw).value;
      Add(Momentum(r.first), Momentum(r.second)) == Add(Momentum(b1), Momentum(b2)) &&
      Energy(r.first) + Energy(r.second) == Energy(b1) + Energy(b2)
  {
    ElasticConserves(b1.mass, b2.mass, b1.position, b2.position, b1.velocity, b2.velocity);
  }

  /**
   * An asteroid and a comet collide: the asteroid bounces elastically off the
   * comet (through its acceleration fields) and the comet is destroyed. None
   * when the update is not finite.
   */
  function AsteroidComet(asteroid: Body, comet: Body): (r: Option<(Body, Body)>)
    ensures r.None? <==> ElasticVelocity(asteroid, comet).None?
    ensures r.Some? ==>
      r.value.0.velocity == r.value.0.acceleration == ElasticVelocity(asteroid, comet).value &&
      r.value.0.(velocity := asteroid.velocity, acceleration := asteroid.acceleration) == asteroid &&
      r.value.1 == comet.(active := false)
  {
    match ElasticVelocity(asteroid, comet)
    case None => None
    case Some(v) =>
      var a := asteroid.(acceleration := v);
      Some((a.(velocity := a.acceleration), comet.(active := false)))
  }

  /** Two comets collide and both are destroyed; nothing else about them changes. */
  function CometComet(b1: Body, b2: Body): (r: (Body, Body))
    ensures !r.0.active && !r.1.active
    ensures r.0.(active := b1.active) == b1 && r.1.(active := b2.active) == b2
  {
    (b1.(active := false), b2.(active := false))
  }

  /** The speed factor of a split child: 2 along the parent's motion, -1 against it. */
  function SplitFactor(direction: bool): real {
    if direction then 2.0 else -1.0
  }

  /**
   * split_asteroid: the parent stops being active and `slot` becomes an
   * active asteroid with half the parent's mass and radius, velocity
   * `u v0` and position offset `2 u r0`; the z coordinate is computed from the
   * parent's y coordinate, as the source writes it. The slot keeps its name,
   * acceleration and counters.
   */
  function Split(parent: Body, slot: Body, direction: bool): (r: (Body, Body))
    ensures r.0 == parent.(active := false)
  {
    var u := SplitFactor(direction);
    var parent' := parent.(active := false);
    var offset := u * parent'.radius * 2.0;
    var child := slot.(
      active := true,
      kind := Asteroid,
      mass := parent'.mass / 2.0,
      radius := parent'.radius / 2.0,
      velocity := Scale(u, parent'.velocity),
      position := Vec3(offset + parent'.position.x, offset + parent'.position.y, offset + parent'.position.y));
    (parent', child)
  }

  /**
   * The child of a split: an active asteroid with half the parent's mass and
   * radius, its velocity scaled by `u` and its position `2 u r0` off the
   * parent's; it keeps the slot's name, acceleration and counters.
   */
  lemma SplitChild(parent: Body, slot: Body, direction: bool)
    ensures var u := SplitFactor(direction); var child := Split(parent, slot, direction).1;
      child.active && child.kind == Asteroid &&
      child.mass == parent.mass / 2.0 && child.radius == parent.radius / 2.0 &&
      child.velocity == Scale(u, parent.velocity) &&
      child.position.x == parent.position.x + 2.0 * u * parent.radius &&
      child.position.y == parent.position.y + 2.0 * u * parent.radius &&
      child.name == slot.name && child.acceleration == slot.acceleration &&
      child.collidedAsteroids == slot.collidedAsteroids && child.collidedComets == slot.collidedComets
  {
  }

  /** A split child's z coordinate always equals its y coordinate. */
  lemma SplitZFollowsY(parent: Body, slot: Body, direction: bool)
    ensures Split(parent, slot, direction).1.position.z == Split(parent, slot, direction).1.position.y
  {
  }

  /**
   * Splitting one parent twice, forwards then backwards: the second split sees
   * the same mass, radius, position and velocity; the two children together
   * have the parent's mass but only half its momentum.
   */
  lemma {:induction false} SplitPair(parent: Body, slot1: Body, slot2: Body)
    ensures var (p1, c1) := Split(parent, slot1, true);
      var (p2, c2) := Split(p1, slot2, false);
      p2 == p1 &&
      c2.radius == c1.radius &&
      c1.mass + c2.mass == parent.mass &&
      Add(Momentum(c1), Momentum(c2)) == Scale(parent.mass / 2.0, parent.velocity)
  {
    var (p1, c1) := Split(parent, slot1, true);
    var (p2, c2) := Split(p1, slot2, false);
    var m, v := parent.mass, parent.velocity;
    assert (m / 2.0) * (2.0 * v.x) + (m / 2.0) * (-1.0 * v.x) == (m / 2.0) * v.x;
    assert (m / 2.0) * (2.0 * v.y) + (m / 2.0) * (-1.0 * v.y) == (m / 2.0) * v.y;
    assert (m / 2.0) * (2.0 * v.z) + (m / 2.0) * (-1.0 * v.z) == (m / 2.0) * v.z;
  }

  /** The position, velocity, mass and radius a new comet is given, as drawn at random. */
  datatype CometSample = CometSample(position: Vec3, velocity: Vec3, mass: real, radius: real)

  /**
   * random_comet: a comet appears in `slot` when the draw is a multiple of
   * 3000000, taking the sampled kinematics; otherwise the slot is untouched.
   */
  function RandomComet(slot: Body, draw: nat, sample: CometSample): (r: (Body, bool))
    ensures r.1 <==> draw % 3000000 == 0
    ensures !r.1 ==> r.0 == slot
    ensures r.1 ==> (r.0.active && r.0.kind == Comet &&
      r.0.position == sample.position && r.0.velocity == sample.velocity &&
      r.0.mass == sample.mass && r.0.radius == sample.radius &&
      r.0.name == slot.name && r.0.acceleration == slot.acceleration &&
      r.0.collidedAsteroids == slot.collidedAsteroids && r.0.collidedComets == slot.collidedComets)
  {
    if draw % 3000000 == 0 then
      (slot.(position := sample.position, velocity := sample.velocity, mass := sample.mass,
             radius := sample.radius, kind := Comet, active := true), true)
    else (slot, false)
  }
}
