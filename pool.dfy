// The ParticlePool pseudo-class of js/main.js: an array of particle
// objects allocated once, reused in place, and managed as a circular
// queue by two cursors.
module ParticlePools {
  import Settings
  import Ring
  import opened Particles
  import PoolModel

  class ParticlePool {
    const particles: array<Particle>
    var firstActive: nat
    var firstFree: nat
    const duration: real

    /** At least one slot, both cursors inside the array, and every slot
      * holds its own particle object. */
    ghost predicate Valid()
      reads this, particles
    {
      1 <= particles.Length &&
      firstActive < particles.Length && firstFree < particles.Length &&
      forall i, j :: 0 <= i < particles.Length && 0 <= j < particles.Length && i != j ==> particles[i] != particles[j]
    }

    /** The particle objects of the pool. */
    ghost function Members(): set<Particle>
      reads particles
    {
      set i | 0 <= i < particles.Length :: particles[i]
    }

    /** The states of the particles, slot by slot. */
    ghost function States(): seq<ParticleState>
      reads particles, Members()
    {
      seq(particles.Length, i requires 0 <= i < particles.Length reads particles, Members() => particles[i].State())
    }

    /** The value the pool currently represents. */
    ghost function Model(): PoolModel.Pool
      reads this, particles, Members()
    {
      PoolModel.Pool(States(), firstActive, firstFree, duration)
    }

    /** `new ParticlePool(length)`: one fresh particle per slot. */
    constructor (length: nat)
      requires 1 <= length
      ensures Valid() && fresh(particles) && fresh(Members())
      ensures Model() == PoolModel.Empty(length, Settings.Duration)
    {
      var first := new Particle();
      var a := new Particle[length](_ => first);
      for i := 0 to length
        invariant forall j :: 0 <= j < i ==> fresh(a[j]) && a[j].State() == Blank
        invariant forall j, k :: 0 <= j < i && 0 <= k < i && j != k ==> a[j] != a[k]
      {
        a[i] := new Particle();
      }
      particles := a;
      firstActive := 0;
      firstFree := 0;
      duration := Settings.Duration;
      new;
      assert Model().slots == PoolModel.Empty(length, Settings.Duration).slots;
    }

    /** ParticlePool.add(x, y, dx, dy). */
    method Add(x: real, y: real, dx: real, dy: real)
      requires Valid()
      modifies this, Members()
      ensures Valid()
      ensures Model() == PoolModel.Add(old(Model()), PoolModel.Emission(x, y, dx, dy))
    {
      ghost var before := Model();
      ghost var after := PoolModel.Add(before, PoolModel.Emission(x, y, dx, dy));
      particles[firstFree].Initialize(x, y, dx, dy);
      assert Model().slots == after.slots;

      // handle circular queue
      firstFree := firstFree + 1;
      if firstFree == particles.Length {
        firstFree := 0;
      }
      if firstActive == firstFree {
        firstActive := firstActive + 1;
      }
      if firstActive == particles.Length {
        firstActive := 0;
      }
      assert firstFree == after.firstFree && firstActive == after.firstActive;
    }

    /** ParticlePool.update(deltaTime): the aging passes, then the expiry loop. */
    method Update(dt: real)
      requires Valid()
      modifies this, Members()
      ensures Valid()
      ensures Model() == PoolModel.Update(old(Model()), dt)
    {
      AgeLive(dt);
      RemoveExpired();
    }

    /** The aging passes of ParticlePool.update: one pass over the live
      * range, or two when it wraps round the end of the array. */
    method AgeLive(dt: real)
      requires Valid()
      modifies Members()
      ensures Valid()
      ensures Model() == PoolModel.Aged(old(Model()), dt)
    {
      ghost var before := Model();
      var n := particles.Length;

      // update active particles
      if firstActive < firstFree {
        for i := firstActive to firstFree
          invariant forall j :: 0 <= j < n ==>
            particles[j].State() == if firstActive <= j < i then Stepped(before.slots[j], dt) else before.slots[j]
        {
          particles[i].Update(dt);
        }
      }
      if firstFree < firstActive {
        for i := firstActive to n
          invariant forall j :: 0 <= j < n ==>
            particles[j].State() == if firstActive <= j < i then Stepped(before.slots[j], dt) else before.slots[j]
        {
          particles[i].Update(dt);
        }
        for i := 0 to firstFree
          invariant forall j :: 0 <= j < n ==>
            particles[j].State() == if firstActive <= j || j < i then Stepped(before.slots[j], dt) else before.slots[j]
        {
          particles[i].Update(dt);
        }
      }
      forall j | 0 <= j < n
        ensures States()[j] == PoolModel.Aged(before, dt).slots[j]
      {
        PoolModel.AgedTouchesLiveRange(before, dt, j);
      }
    }

    /** The expiry loop at the end of ParticlePool.update. */
    method RemoveExpired()
      requires Valid()
      modifies this
      ensures Valid()
      ensures Model() == PoolModel.Expire(old(Model()))
    {
      ghost var start := Model();
      var n := particles.Length;
      while particles[firstActive].age >= duration && firstActive != firstFree
        invariant Valid() && States() == start.slots && firstFree == start.firstFree
        invariant PoolModel.ExpiredFront(start.(firstActive := firstActive)) == PoolModel.ExpiredFront(start)
        decreases Ring.Count(firstActive, firstFree, n)
      {
        PoolModel.ExpiredFrontUnfolds(start.(firstActive := firstActive));
        Ring.CountAfterNext(firstActive, firstFree, n);
        firstActive := firstActive + 1;
        if firstActive == n {
          firstActive := 0;
        }
      }
      PoolModel.ExpiredFrontUnfolds(start.(firstActive := firstActive));
    }
  }
}
