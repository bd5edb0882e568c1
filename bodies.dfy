/**
 * The bodies of the solar system simulation: their type tags, the record a
 * body is simulated with, and the sizing constants of the configuration.
 */
module Bodies {

  /** Number of history entries kept per body before they are written out. */
  const MaxHistorySize: nat := 10000

  /** Number of bodies the configuration holds unless told otherwise. */
  const MaxBodyConfigs: nat := 100

  /** Default sizes of the two generated belts. */
  const AsteroidBeltDefault: nat := 0
  const KuiperBeltDefault: nat := 0

  /** The type tag of a body, with the numeric codes the enumeration gives them. */
  datatype BodyType = Sun | Planet | Moon | Asteroid | Comet | Unknown

  function TypeCode(t: BodyType): (c: nat)
    ensures c < 3 <==> IsLarge(t)
    ensures t == Unknown <==> c == 20
  {
    match t
    case Sun => 0
    case Planet => 1
    case Moon => 2
    case Asteroid => 3
    case Comet => 4
    case Unknown => 20
  }

  /** Sun, planet or moon: the bodies that absorb what hits them. */
  predicate IsLarge(t: BodyType) {
    t == Sun || t == Planet || t == Moon
  }

  /** Asteroid or comet. */
  predicate IsSmall(t: BodyType) {
    t == Asteroid || t == Comet
  }

  datatype Vec3 = Vec3(x: real, y: real, z: real)

  const Origin := Vec3(0.0, 0.0, 0.0)

  function Add(a: Vec3, b: Vec3): Vec3 {
    Vec3(a.x + b.x, a.y + b.y, a.z + b.z)
  }

  function Sub(a: Vec3, b: Vec3): Vec3 {
    Vec3(a.x - b.x, a.y - b.y, a.z - b.z)
  }

  function Scale(k: real, a: Vec3): Vec3 {
    Vec3(k * a.x, k * a.y, k * a.z)
  }

  function Dot(a: Vec3, b: Vec3): real {
    a.x * b.x + a.y * b.y + a.z * b.z
  }

  /**
   * A body as the simulation holds it. The acceleration fields double as
   * scratch space for the velocities computed by an elastic collision.
   */
  datatype Body = Body(
    name: string,
    position: Vec3,
    mass: real,
    velocity: Vec3,
    acceleration: Vec3,
    radius: real,
    active: bool,
    kind: BodyType,
    collidedAsteroids: int,
    collidedComets: int)

  /** A slot that holds no body yet: every field zero, inactive. */
  const EmptySlot := Body("", Origin, 0.0, Origin, Origin, 0.0, false, Sun, 0, 0)

  /** `m * v`, the momentum of a body. */
  function Momentum(b: Body): Vec3 {
    Scale(b.mass, b.velocity)
  }

  /** Twice the kinetic energy of a body, `m |v|^2`. */
  function Energy(b: Body): real {
    b.mass * Dot(b.velocity, b.velocity)
  }

  /** How the configuration describes a body before the simulation starts. */
  datatype BodyConfig = BodyConfig(
    name: string,
    position: Vec3,
    mass: real,
    radius: real,
    velocity: Vec3,
    active: bool,
    kind: BodyType)

  /** A configuration slot nothing has been written to: inactive, with an empty name. */
  const UnusedConfig := BodyConfig("", Origin, 0.0, 0.0, Origin, false, Sun)

  /** One sampled position of a body. */
  datatype Point = Point(x: real, y: real, z: real)
}
