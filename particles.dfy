// The Particle pseudo-class of js/main.js: its state, its reinitialisation
// and its integration step, and the easing and opacity of its drawing.
module Particles {
  import Settings

  /** A 2D vector; the source's Point objects are owned by one particle
    * each, so they are modelled as values. */
  datatype Point = Point(x: real, y: real)

  function Plus(a: Point, b: Point): (r: Point)
  {
    Point(a.x + b.x, a.y + b.y)
  }

  function Scale(a: Point, k: real): (r: Point)
  {
    Point(a.x * k, a.y * k)
  }

  /** Everything a Particle object holds, as a value. */
  datatype ParticleState = ParticleState(position: Point, velocity: Point, acceleration: Point, age: real)

  /** The state of a freshly constructed Particle: all zero. */
  const Blank := ParticleState(Point(0.0, 0.0), Point(0.0, 0.0), Point(0.0, 0.0), 0.0)

  /** The particle moves on the curling trajectory of initial velocity v0:
    * its acceleration is v0 times the curl coefficient for ever, and its
    * velocity has decayed linearly with its age, v0 + v0 * Effect * age. */
  ghost predicate OnTrajectory(s: ParticleState, v0: Point)
  {
    s.acceleration == Scale(v0, Settings.Effect) &&
    s.velocity == Plus(v0, Scale(v0, Settings.Effect * s.age))
  }

  /** Particle.initialize(x, y, dx, dy): a new particle at (x, y), with
    * velocity (dx, dy), age 0, at the start of its trajectory. */
  function Initialized(x: real, y: real, dx: real, dy: real): (r: ParticleState)
    ensures r.position == Point(x, y) && r.age == 0.0
    ensures OnTrajectory(r, Point(dx, dy))
  {
    ParticleState(Point(x, y), Point(dx, dy), Point(dx * Settings.Effect, dy * Settings.Effect), 0.0)
  }

  /** Particle.update(dt): one explicit (forward) Euler step. The position moves by the
    * velocity held before the step, then the velocity by the acceleration,
    * and the age grows by dt. */
  function Stepped(s: ParticleState, dt: real): (r: ParticleState)
    ensures r.age == s.age + dt && r.acceleration == s.acceleration
    ensures dt == 0.0 ==> r == s
  {
    ParticleState(
      Plus(s.position, Scale(s.velocity, dt)),
      Plus(s.velocity, Scale(s.acceleration, dt)),
      s.acceleration,
      s.age + dt)
  }

  /** A step keeps the particle on its trajectory, whatever dt is. */
  lemma SteppedStaysOnTrajectory(s: ParticleState, v0: Point, dt: real)
    requires OnTrajectory(s, v0)
    ensures OnTrajectory(Stepped(s, dt), v0)
    ensures Stepped(s, dt).age == s.age + dt
  {
  }

  /** A particle on its trajectory stops at age 4/3 s (before its 2 s
    * lifetime ends) and moves backwards afterwards: the curl. */
  lemma TrajectoryTurnsBack(s: ParticleState, v0: Point)
    requires OnTrajectory(s, v0)
    ensures s.age == 4.0 / 3.0 ==> s.velocity == Point(0.0, 0.0)
    ensures s.age > 4.0 / 3.0 ==> s.velocity == Scale(v0, 1.0 - 0.75 * s.age) && 1.0 - 0.75 * s.age < 0.0
  {
  }

  /** The easing of the sprite size, ease(t) = (t - 1)^3 + 1, written in
    * the source as the decrement-then-cube `--t * t * t + 1`. It starts
    * at 0 and ends at 1. */
  function Ease(t: real): (r: real)
    ensures t == 0.0 ==> r == 0.0
    ensures t == 1.0 ==> r == 1.0
  {
    var u := t - 1.0;
    u * u * u + 1.0
  }

  /** The easing never decreases, so a sprite never shrinks as it ages. */
  lemma EaseMonotone(a: real, b: real)
    requires a <= b
    ensures Ease(a) <= Ease(b)
  {
    var u, v := a - 1.0, b - 1.0;
    // v^3 - u^3 = (v - u) * (u^2 + u*v + v^2) and the second factor is a sum of squares
    assert v * v * v - u * u * u == (v - u) * (u * u + u * v + v * v);
    assert u * u + u * v + v * v == (u + v / 2.0) * (u + v / 2.0) + 3.0 * (v * v) / 4.0;
    assert 0.0 <= (u + v / 2.0) * (u + v / 2.0);
    assert 0.0 <= v * v;
    MulNonNegative(v - u, u * u + u * v + v * v);
  }

  lemma MulNonNegative(a: real, b: real)
    requires 0.0 <= a && 0.0 <= b
    ensures 0.0 <= a * b
  {
  }

  /** On the unit interval the easing stays in the unit interval. */
  lemma EaseUnitRange(t: real)
    requires 0.0 <= t <= 1.0
    ensures 0.0 <= Ease(t) <= 1.0
  {
    EaseMonotone(0.0, t);
    EaseMonotone(t, 1.0);
  }

  /** The sprite side length drawn for a particle of the given age,
    * image.width * ease(age / duration): nothing at birth, the full
    * width at the end of the lifetime. */
  function DrawSize(width: real, age: real): (r: real)
    ensures age == 0.0 ==> r == 0.0
    ensures age == Settings.Duration ==> r == width
  {
    width * Ease(age / Settings.Duration)
  }

  /** The global alpha a particle is drawn with, 1 - age / duration:
    * fully opaque exactly at birth, invisible exactly at the end of the
    * lifetime. */
  function Opacity(age: real): (r: real)
    ensures r == 1.0 <==> age == 0.0
    ensures r == 0.0 <==> age == Settings.Duration
  {
    1.0 - age / Settings.Duration
  }

  /** A sprite of non-negative width grows with the particle's age, from
    * nothing at age 0 to its full width at the end of its lifetime. */
  lemma DrawSizeGrows(width: real, a: real, b: real)
    requires 0.0 <= width && a <= b
    ensures DrawSize(width, a) <= DrawSize(width, b)
    ensures DrawSize(width, 0.0) == 0.0 && DrawSize(width, Settings.Duration) == width
  {
    EaseMonotone(a / Settings.Duration, b / Settings.Duration);
  }

  /** Opacity starts at 1, falls linearly with age, reaches 0 exactly at
    * the end of the lifetime, and stays within [0, 1] during it. */
  lemma OpacityFades(a: real, b: real)
    requires a <= b
    ensures Opacity(b) <= Opacity(a)
    ensures Opacity(0.0) == 1.0 && Opacity(Settings.Duration) == 0.0
    ensures 0.0 <= a <= Settings.Duration ==> 0.0 <= Opacity(a) <= 1.0
  {
  }

  /** A Particle object of the source; its fields are updated in place. */
  class Particle {
    var position: Point
    var velocity: Point
    var acceleration: Point
    var age: real

    /** The value this object currently holds. */
    function State(): ParticleState
      reads this
    {
      ParticleState(position, velocity, acceleration, age)
    }

    constructor ()
      ensures State() == Blank
    {
      position := Point(0.0, 0.0);
      velocity := Point(0.0, 0.0);
      acceleration := Point(0.0, 0.0);
      age := 0.0;
    }

    method Initialize(x: real, y: real, dx: real, dy: real)
      modifies this
      ensures State() == Initialized(x, y, dx, dy)
    {
      position := position.(x := x);
      position := position.(y := y);
      velocity := velocity.(x := dx);
      velocity := velocity.(y := dy);
      acceleration := acceleration.(x := dx * Settings.Effect);
      acceleration := acceleration.(y := dy * Settings.Effect);
      age := 0.0;
    }

    method Update(dt: real)
      modifies this
      ensures State() == Stepped(old(State()), dt)
    {
      ghost var s := State();
      position := position.(x := position.x + velocity.x * dt);
      position := position.(y := position.y + velocity.y * dt);
      velocity := velocity.(x := velocity.x + acceleration.x * dt);
      velocity := velocity.(y := velocity.y + acceleration.y * dt);
      age := age + dt;
      assert State() == ParticleState(Plus(s.position, Scale(s.velocity, dt)), Plus(s.velocity, Scale(s.acceleration, dt)), s.acceleration, s.age + dt);
    }
  }
}
