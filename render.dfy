// The pool-facing part of render() in js/main.js: how many particles a
// frame emits, the emission loop, and the update of the pool.
module Render {
  import Settings
  import PoolModel
  import ParticlePools

  /** The number of turns of `for (i = 0; i < amount; i++)`: the least
    * natural number that is not below `amount`. For a positive fractional
    * amount this is one more than the truncated amount. */
  function EmissionCount(amount: real): (count: nat)
    ensures amount <= count as real
    ensures count == 0 || (count - 1) as real < amount
  {
    if amount <= 0.0 then 0
    else if amount.Floor as real == amount then amount.Floor
    else amount.Floor + 1
  }

  /** The emission count rounds up: it is never the truncation of a
    * positive fractional amount. */
  lemma EmissionCountRoundsUp(amount: real)
    requires 0.0 < amount && amount.Floor as real != amount
    ensures EmissionCount(amount) == amount.Floor + 1
  {
  }

  /** The emissions drawn for the first `count` turns of the loop. */
  function Drawn(spawn: nat -> PoolModel.Emission, count: nat): (es: seq<PoolModel.Emission>)
    ensures |es| == count
    ensures forall k :: 0 <= k < count ==> es[k] == spawn(k)
  {
    if count == 0 then [] else Drawn(spawn, count - 1) + [spawn(count - 1)]
  }

  /** The emission loop of render(): `amount` turns of add, the i-th with
    * the heart-curve point and direction `spawn(i)` that the source draws
    * from Math.random. */
  method Emit(pool: ParticlePools.ParticlePool, amount: real, spawn: nat -> PoolModel.Emission) returns (count: nat)
    requires pool.Valid()
    modifies pool, pool.Members()
    ensures pool.Valid()
    ensures count == EmissionCount(amount)
    ensures pool.Model() == PoolModel.AddAll(old(pool.Model()), Drawn(spawn, count))
  {
    ghost var start := pool.Model();
    var i: nat := 0;
    while (i as real) < amount
      invariant pool.Valid() && pool.Members() == old(pool.Members())
      invariant i == 0 || (i - 1) as real < amount
      invariant pool.Model() == PoolModel.AddAll(start, Drawn(spawn, i))
      decreases amount.Floor + 1 - i
    {
      var e := spawn(i);
      ghost var drawn := Drawn(spawn, i);
      pool.Add(e.x, e.y, e.dx, e.dy);
      assert e == PoolModel.Emission(e.x, e.y, e.dx, e.dy);
      assert Drawn(spawn, i + 1) == drawn + [e];
      PoolModel.AddAllSnoc(start, drawn, e);
      i := i + 1;
    }
    count := i;
  }

  /** One frame of render() as seen by the pool: the emission loop for
    * Rate * dt particles, then update(dt); dt is the frame's deltaTime. */
  method Frame(pool: ParticlePools.ParticlePool, dt: real, spawn: nat -> PoolModel.Emission)
    requires pool.Valid()
    modifies pool, pool.Members()
    ensures pool.Valid()
    ensures pool.Model() ==
      PoolModel.Frame(old(pool.Model()), Drawn(spawn, EmissionCount(Settings.Rate * dt)), dt)
  {
    var count := Emit(pool, Settings.Rate * dt, spawn);
    pool.Update(dt);
  }

  /** The particles a run of frames emits in all, EmissionCount(Rate * dt)
    * for each frame time dt. */
  function EmittedOver(dts: seq<real>): (total: nat)
    ensures dts == [] ==> total == 0
    decreases |dts|
  {
    if dts == [] then 0 else EmissionCount(Settings.Rate * dts[0]) + EmittedOver(dts[1..])
  }

  /** Rounding up never loses a particle: a run of frames emits at least
    * Rate times its total time. */
  lemma {:induction false} EmittedAtLeastRate(dts: seq<real>)
    ensures Settings.Rate * PoolModel.Sum(dts) <= EmittedOver(dts) as real
    decreases |dts|
  {
    if dts != [] {
      EmittedAtLeastRate(dts[1..]);
      assert Settings.Rate * PoolModel.Sum(dts) == Settings.Rate * dts[0] + Settings.Rate * PoolModel.Sum(dts[1..]);
    }
  }

  /** Frames that together last a particle's lifetime emit at least a
    * pool's worth of particles, Length of them. */
  lemma LifetimeEmitsAtLeastLength(dts: seq<real>)
    requires Settings.Duration <= PoolModel.Sum(dts)
    ensures Settings.Length as real <= EmittedOver(dts) as real
  {
    Settings.RateFillsPoolPerLifetime();
    EmittedAtLeastRate(dts);
  }

  /** k frames of the same time dt. */
  function Frames(k: nat, dt: real): (dts: seq<real>)
    ensures |dts| == k
  {
    if k == 0 then [] else [dt] + Frames(k - 1, dt)
  }

  /** k equal frames last k * dt. */
  lemma {:induction false} EqualFramesLast(k: nat, dt: real)
    ensures PoolModel.Sum(Frames(k, dt)) == k as real * dt
  {
    if k != 0 {
      var rest := Frames(k - 1, dt);
      EqualFramesLast(k - 1, dt);
      assert Frames(k, dt)[1..] == rest;
      assert PoolModel.Sum(Frames(k, dt)) == dt + PoolModel.Sum(rest);
      assert dt + (k - 1) as real * dt == k as real * dt;
    }
  }

  /** k equal frames emit k times what one frame emits. */
  lemma {:induction false} EqualFramesEmit(k: nat, dt: real)
    ensures EmittedOver(Frames(k, dt)) == k * EmissionCount(Settings.Rate * dt)
  {
    if k != 0 {
      var rest := Frames(k - 1, dt);
      var c := EmissionCount(Settings.Rate * dt);
      EqualFramesEmit(k - 1, dt);
      assert Frames(k, dt) == [dt] + rest;
      EmittedCons(dt, rest);
      MulSucc(k, c);
    }
  }

  lemma EmittedCons(dt: real, rest: seq<real>)
    ensures EmittedOver([dt] + rest) == EmissionCount(Settings.Rate * dt) + EmittedOver(rest)
  {
    assert ([dt] + rest)[1..] == rest;
  }

  lemma MulSucc(k: nat, c: nat)
    requires 1 <= k
    ensures c + (k - 1) * c == k * c
  {
  }

  /** At 60 frames a second each frame asks for 250 / 60 particles and
    * emits 5. So k frames last k / 60 s and emit 5 * k particles: one 2 s
    * lifetime (k = 120) emits 600, more than the 500 slots hold. */
  lemma SixtyHertz(k: nat)
    ensures EmissionCount(Settings.Rate * (1.0 / 60.0)) == 5
    ensures PoolModel.Sum(Frames(k, 1.0 / 60.0)) == k as real / 60.0
    ensures EmittedOver(Frames(k, 1.0 / 60.0)) == 5 * k
  {
    var dt := 1.0 / 60.0;
    assert Settings.Rate * dt == 25.0 / 6.0;
    assert (25.0 / 6.0).Floor == 4;
    EqualFramesLast(k, dt);
    EqualFramesEmit(k, dt);
  }
}
