// The particle pool of js/main.js as a value: the slot array, the two
// cursors and the lifetime, with add, the aging pass and the expiry loop
// as functions. The class in pool.dfy is proved to follow these.
module PoolModel {
  import opened Particles
  import Ring

  datatype Pool = Pool(slots: seq<ParticleState>, firstActive: nat, firstFree: nat, duration: real)

  /** The arguments of one call of ParticlePool.add. */
  datatype Emission = Emission(x: real, y: real, dx: real, dy: real)

  /** The pool has at least one slot and both cursors point into it. */
  predicate Valid(p: Pool)
  {
    1 <= |p.slots| && p.firstActive < |p.slots| && p.firstFree < |p.slots|
  }

  /** The number of live particles, (firstFree - firstActive) mod length. */
  function Size(p: Pool): (n: nat)
    requires Valid(p)
  {
    Ring.Count(p.firstActive, p.firstFree, |p.slots|)
  }

  /** Slot i holds a live particle. */
  predicate Live(p: Pool, i: nat)
    requires Valid(p) && i < |p.slots|
  {
    Ring.Live(i, p.firstActive, p.firstFree, |p.slots|)
  }

  /** The live particles as a queue, oldest (at firstActive) first. */
  function Contents(p: Pool): (c: seq<ParticleState>)
    requires Valid(p)
    ensures |c| == Size(p)
  {
    seq(Size(p), k requires 0 <= k < Size(p) => p.slots[Ring.Index(p.firstActive, k, |p.slots|)])
  }

  /** The live slots are exactly the slots that Contents lists. */
  lemma LiveIffListed(p: Pool, i: nat)
    requires Valid(p) && i < |p.slots|
    ensures Live(p, i) <==> exists k :: 0 <= k < Size(p) && Ring.Index(p.firstActive, k, |p.slots|) == i
  {
    var n := |p.slots|;
    if Live(p, i) {
      Ring.IndexOfCount(p.firstActive, i, n);
    }
  }

  /** The last min(|s|, m) elements of s. */
  function Keep(s: seq<ParticleState>, m: nat): (r: seq<ParticleState>)
  {
    if |s| <= m then s else s[|s| - m..]
  }

  /** The pool right after `new ParticlePool(n)`: n blank particles, both
    * cursors at 0, nothing live. */
  function Empty(n: nat, duration: real): (r: Pool)
    requires 1 <= n
    ensures Valid(r) && |r.slots| == n && r.duration == duration
    ensures Contents(r) == []
  {
    Pool(seq(n, _ => Blank), 0, 0, duration)
  }

  /** ParticlePool.add: reinitialise the slot at firstFree, advance
    * firstFree, and when it lands on firstActive advance that too. */
  function Add(p: Pool, e: Emission): (r: Pool)
    requires Valid(p)
    ensures Valid(r) && |r.slots| == |p.slots| && r.duration == p.duration
    // only the slot at the old firstFree is written
    ensures r.slots == p.slots[p.firstFree := Initialized(e.x, e.y, e.dx, e.dy)]
    ensures r.firstFree == Ring.Next(p.firstFree, |p.slots|)
    ensures r.firstActive == if r.firstFree == p.firstActive then Ring.Next(p.firstActive, |p.slots|) else p.firstActive
  {
    var n := |p.slots|;
    var free := p.firstFree + 1;
    var free := if free == n then 0 else free;
    var active := if p.firstActive == free then p.firstActive + 1 else p.firstActive;
    var active := if active == n then 0 else active;
    Pool(p.slots[p.firstFree := Initialized(e.x, e.y, e.dx, e.dy)], active, free, p.duration)
  }

  /** add as a queue operation: the new particle joins at the back, and
    * when the pool already held length - 1 particles the oldest one is
    * evicted. */
  lemma AddQueue(p: Pool, e: Emission)
    requires Valid(p)
    ensures Contents(Add(p, e)) == Keep(Contents(p) + [Initialized(e.x, e.y, e.dx, e.dy)], |p.slots| - 1)
  {
    var r := Add(p, e);
    var n := |p.slots|;
    var c := Contents(p) + [Initialized(e.x, e.y, e.dx, e.dy)];
    var fa, ff := p.firstActive, p.firstFree;
    if r.firstFree != fa {
      // room left: the live range grows by the written slot
      assert Size(r) == Size(p) + 1;
      forall k | 0 <= k < Size(r)
        ensures Contents(r)[k] == c[k]
      {
        if k < Size(p) {
          assert Ring.Index(fa, k, n) != ff;
        } else {
          Ring.IndexOfCount(fa, ff, n);
        }
      }
      assert Keep(c, n - 1) == c;
    } else {
      // full: the live range moves forward by one
      assert Size(p) == n - 1;
      assert Size(r) == n - 1;
      forall k | 0 <= k < Size(r)
        ensures Contents(r)[k] == c[k + 1]
      {
        Ring.IndexAfterNext(fa, k, n);
        if k + 1 < Size(p) {
          assert Ring.Index(fa, k + 1, n) != ff;
        } else {
          Ring.IndexOfCount(fa, ff, n);
        }
      }
      assert Keep(c, n - 1) == c[1..];
    }
  }

  /** Every particle of a queue after one integration step. */
  function StepAll(c: seq<ParticleState>, dt: real): (r: seq<ParticleState>)
    ensures |r| == |c|
  {
    seq(|c|, k requires 0 <= k < |c| => Stepped(c[k], dt))
  }

  /** The first half of ParticlePool.update: every live slot takes one
    * integration step; no other slot and no cursor changes. */
  function Aged(p: Pool, dt: real): (r: Pool)
    requires Valid(p)
    ensures Valid(r) && |r.slots| == |p.slots|
    ensures r.firstActive == p.firstActive && r.firstFree == p.firstFree && r.duration == p.duration
  {
    Pool(seq(|p.slots|, i requires 0 <= i < |p.slots| => if Live(p, i) then Stepped(p.slots[i], dt) else p.slots[i]),
         p.firstActive, p.firstFree, p.duration)
  }

  /** The aging pass as a queue operation: every live particle, and no
    * other, takes one step, and the queue keeps its order. */
  lemma AgedQueue(p: Pool, dt: real)
    requires Valid(p)
    ensures Contents(Aged(p, dt)) == StepAll(Contents(p), dt)
  {
    var n := |p.slots|;
    forall k | 0 <= k < Size(p)
      ensures Contents(Aged(p, dt))[k] == Stepped(Contents(p)[k], dt)
    {
      var i := Ring.Index(p.firstActive, k, n);
      assert Live(p, i);
    }
  }

  /** In the source's own terms: when firstActive < firstFree the slots
    * [firstActive, firstFree) age by dt, when firstFree < firstActive the
    * slots [firstActive, length) and [0, firstFree) do, and every other
    * slot, and every slot of an empty pool, is left as it was. */
  lemma AgedTouchesLiveRange(p: Pool, dt: real, i: nat)
    requires Valid(p) && i < |p.slots|
    ensures var fa, ff := p.firstActive, p.firstFree;
      Aged(p, dt).slots[i] ==
        if (fa < ff && fa <= i < ff) || (ff < fa && (fa <= i || i < ff))
        then Stepped(p.slots[i], dt) else p.slots[i]
    ensures Aged(p, dt).slots[i].age == if Live(p, i) then p.slots[i].age + dt else p.slots[i].age
  {
    Ring.LiveIffSourceRanges(i, p.firstActive, p.firstFree, |p.slots|);
  }

  /** Advancing firstActive of a non-empty pool drops the oldest particle. */
  lemma PopFront(p: Pool)
    requires Valid(p) && p.firstActive != p.firstFree
    ensures Valid(p.(firstActive := Ring.Next(p.firstActive, |p.slots|)))
    ensures Contents(p.(firstActive := Ring.Next(p.firstActive, |p.slots|))) == Contents(p)[1..]
  {
    var n := |p.slots|;
    var q := p.(firstActive := Ring.Next(p.firstActive, n));
    Ring.CountAfterNext(p.firstActive, p.firstFree, n);
    forall k | 0 <= k < Size(q)
      ensures Contents(q)[k] == Contents(p)[k + 1]
    {
      Ring.IndexAfterNext(p.firstActive, k, n);
    }
  }

  /** Where the expiry loop of ParticlePool.update leaves firstActive:
    * while the particle at firstActive has reached its lifetime and the
    * pool is not empty, firstActive advances. */
  function ExpiredFront(p: Pool): (fa: nat)
    requires Valid(p)
    ensures fa < |p.slots|
    decreases Size(p)
  {
    if p.slots[p.firstActive].age >= p.duration && p.firstActive != p.firstFree then
      Ring.CountAfterNext(p.firstActive, p.firstFree, |p.slots|);
      ExpiredFront(p.(firstActive := Ring.Next(p.firstActive, |p.slots|)))
    else
      p.firstActive
  }

  /** The pool after the expiry loop. It pops a prefix of the queue,
    * every popped particle had reached its lifetime, and the new front
    * (if any) has not. */
  function Expire(p: Pool): (r: Pool)
    requires Valid(p)
    ensures Valid(r) && r.slots == p.slots && r.firstFree == p.firstFree && r.duration == p.duration
    ensures PopsExpiredPrefix(Contents(p), Contents(r), p.duration)
  {
    ExpirePopsExpired(p);
    p.(firstActive := ExpiredFront(p))
  }

  lemma {:induction false} ExpirePopsExpired(p: Pool)
    requires Valid(p)
    ensures PopsExpiredPrefix(Contents(p), Contents(p.(firstActive := ExpiredFront(p))), p.duration)
    decreases Size(p)
  {
    Ring.IndexOfCount(p.firstActive, p.firstActive, |p.slots|);
    if p.slots[p.firstActive].age >= p.duration && p.firstActive != p.firstFree {
      var q := p.(firstActive := Ring.Next(p.firstActive, |p.slots|));
      Ring.CountAfterNext(p.firstActive, p.firstFree, |p.slots|);
      PopFront(p);
      ExpirePopsExpired(q);
      assert q.(firstActive := ExpiredFront(q)) == p.(firstActive := ExpiredFront(p));
      PopsExpiredPrefixCons(Contents(p), Contents(p.(firstActive := ExpiredFront(p))), p.duration);
    }
  }

  /** One turn of the expiry loop leaves the loop's final cursor as it was. */
  lemma ExpiredFrontUnfolds(p: Pool)
    requires Valid(p)
    ensures p.slots[p.firstActive].age >= p.duration && p.firstActive != p.firstFree ==>
      ExpiredFront(p) == ExpiredFront(p.(firstActive := Ring.Next(p.firstActive, |p.slots|)))
    ensures !(p.slots[p.firstActive].age >= p.duration && p.firstActive != p.firstFree) ==> ExpiredFront(p) == p.firstActive
  {
  }

  /** `after` is what popping from the front of `before` while the front
    * particle has reached `duration` leaves: a suffix of `before`, every
    * popped particle expired, and the new front (if any) not expired. */
  ghost predicate PopsExpiredPrefix(before: seq<ParticleState>, after: seq<ParticleState>, duration: real)
  {
    |after| <= |before| &&
    after == before[|before| - |after|..] &&
    (forall k :: 0 <= k < |before| - |after| ==> before[k].age >= duration) &&
    (after == [] || after[0].age < duration)
  }

  lemma PopsExpiredPrefixCons(before: seq<ParticleState>, after: seq<ParticleState>, duration: real)
    requires before != [] && before[0].age >= duration
    requires PopsExpiredPrefix(before[1..], after, duration)
    ensures PopsExpiredPrefix(before, after, duration)
  {
    var tail := before[1..];
    assert tail[|tail| - |after|..] == before[|before| - |after|..];
    forall k | 1 <= k < |before| - |after|
      ensures before[k].age >= duration
    {
      assert before[k] == tail[k - 1];
    }
  }

  /** ParticlePool.update(dt): age the live range, then expire from the
    * front. firstFree never moves; the survivors are a suffix of the aged
    * queue, every dropped particle had reached its lifetime, and the new
    * front has not. */
  function Update(p: Pool, dt: real): (r: Pool)
    requires Valid(p)
    ensures Valid(r) && |r.slots| == |p.slots| && r.firstFree == p.firstFree && r.duration == p.duration
    ensures PopsExpiredPrefix(StepAll(Contents(p), dt), Contents(r), p.duration)
  {
    AgedQueue(p, dt);
    Expire(Aged(p, dt))
  }

  /** Updating an empty pool changes nothing at all. */
  lemma UpdateEmpty(p: Pool, dt: real)
    requires Valid(p) && Size(p) == 0
    ensures Update(p, dt) == p
  {
    assert Aged(p, dt).slots == p.slots;
  }

  /** Ages fall, or stay, from the front of a queue to its back, and none
    * is negative: the first-in-first-out order of emission. */
  ghost predicate Ordered(c: seq<ParticleState>)
  {
    (forall k :: 0 <= k < |c| ==> 0.0 <= c[k].age) &&
    (forall i, j :: 0 <= i < j < |c| ==> c[j].age <= c[i].age)
  }

  /** add keeps the queue in emission order: the new particle has age 0. */
  lemma AddKeepsOrder(p: Pool, e: Emission)
    requires Valid(p) && Ordered(Contents(p))
    ensures Ordered(Contents(Add(p, e)))
  {
    var c := Contents(p) + [Initialized(e.x, e.y, e.dx, e.dy)];
    assert Ordered(c);
    AddQueue(p, e);
    KeepOrdered(c, |p.slots| - 1);
  }

  lemma KeepOrdered(c: seq<ParticleState>, m: nat)
    requires Ordered(c)
    ensures Ordered(Keep(c, m))
  {
    if m < |c| {
      var d := |c| - m;
      assert forall k :: 0 <= k < m ==> Keep(c, m)[k] == c[d + k];
    }
  }

  /** update with dt >= 0 keeps the queue in emission order, and because
    * of that order the expiry loop, which only looks at the front, finds
    * every expired particle: a particle survives exactly when its new age
    * is below the lifetime. */
  lemma UpdateExpiresExactly(p: Pool, dt: real)
    requires Valid(p) && Ordered(Contents(p)) && 0.0 <= dt
    ensures Ordered(Contents(Update(p, dt)))
    ensures var a := StepAll(Contents(p), dt);
      var d := |a| - Size(Update(p, dt));
      forall k :: 0 <= k < |a| ==> (d <= k <==> a[k].age < p.duration)
  {
    StepAllKeepsOrder(Contents(p), dt);
    OrderedSurvivors(StepAll(Contents(p), dt), Contents(Update(p, dt)), p.duration);
  }

  lemma StepAllKeepsOrder(c: seq<ParticleState>, dt: real)
    requires Ordered(c) && 0.0 <= dt
    ensures Ordered(StepAll(c, dt))
  {
    var a := StepAll(c, dt);
    forall i, j | 0 <= i < j < |a| ensures a[j].age <= a[i].age {
      assert a[i].age == c[i].age + dt && a[j].age == c[j].age + dt;
    }
    forall k | 0 <= k < |a| ensures 0.0 <= a[k].age {
      assert a[k].age == c[k].age + dt;
    }
  }

  /** In an ordered queue, popping expired particles from the front leaves
    * exactly the unexpired ones, still in order. */
  lemma OrderedSurvivors(before: seq<ParticleState>, after: seq<ParticleState>, duration: real)
    requires Ordered(before) && PopsExpiredPrefix(before, after, duration)
    ensures Ordered(after)
    ensures forall k :: 0 <= k < |before| ==> (|before| - |after| <= k <==> before[k].age < duration)
  {
    var d := |before| - |after|;
    assert forall k :: 0 <= k < |after| ==> after[k] == before[d + k];
    forall k | d <= k < |before|
      ensures before[k].age < duration
    {
      assert after[0] == before[d];
      assert before[k].age <= before[d].age;
    }
  }

  /** The sum of a run of frame times. */
  function Sum(dts: seq<real>): (total: real)
  {
    if dts == [] then 0.0 else dts[0] + Sum(dts[1..])
  }

  /** Repeated calls of update, once per time of dts, in order;
    * firstFree never moves over the run. */
  function UpdateAll(p: Pool, dts: seq<real>): (r: Pool)
    requires Valid(p)
    ensures Valid(r) && |r.slots| == |p.slots| && r.firstFree == p.firstFree && r.duration == p.duration
    decreases |dts|
  {
    if dts == [] then p else UpdateAll(Update(p, dts[0]), dts[1..])
  }

  /** An empty pool stays exactly as it is over any run of updates. */
  lemma {:induction false} EmptyStaysEmpty(p: Pool, dts: seq<real>)
    requires Valid(p) && Size(p) == 0
    ensures UpdateAll(p, dts) == p
    decreases |dts|
  {
    if dts != [] {
      UpdateEmpty(p, dts[0]);
      EmptyStaysEmpty(p, dts[1..]);
    }
  }

  /** One update of a pool holding a single particle removes it exactly
    * when its stepped age reaches the lifetime, and otherwise leaves it
    * there, alone, with its age grown by dt. */
  lemma LoneUpdate(q: Pool, dt: real)
    requires Valid(q) && Size(q) == 1
    ensures var r := Update(q, dt); var a := Contents(q)[0].age + dt;
      Size(r) <= 1 && (Size(r) == 0 <==> q.duration <= a) && (Size(r) == 1 ==> Contents(r)[0].age == a)
  {
    var s := StepAll(Contents(q), dt);
    assert s[0].age == Contents(q)[0].age + dt;
  }

  /** A pool that is empty, or holds one particle of age a, is empty after
    * a non-empty run of updates taking a to the lifetime. */
  lemma {:induction false} LoneRunExpires(q: Pool, a: real, dts: seq<real>)
    requires Valid(q) && dts != []
    requires Size(q) == 0 || (Size(q) == 1 && Contents(q)[0].age == a)
    requires q.duration <= a + Sum(dts)
    ensures Size(UpdateAll(q, dts)) == 0
    decreases |dts|
  {
    var r := Update(q, dts[0]);
    if Size(q) == 0 {
      EmptyStaysEmpty(q, dts);
    } else if |dts| == 1 {
      assert Sum(dts) == dts[0];
      LoneUpdate(q, dts[0]);
    } else {
      LoneUpdate(q, dts[0]);
      if Size(r) == 0 {
        EmptyStaysEmpty(r, dts[1..]);
      } else {
        LoneRunExpires(r, a + dts[0], dts[1..]);
      }
    }
  }

  /** A particle emitted alone into an empty pool (of two slots or more)
    * is gone after repeated calls of update whose dts sum to its
    * lifetime or more. */
  lemma LoneParticleExpires(p: Pool, e: Emission, dts: seq<real>)
    requires Valid(p) && Size(p) == 0 && 2 <= |p.slots|
    requires dts != [] && p.duration <= Sum(dts)
    ensures Size(Add(p, e)) == 1
    ensures Size(UpdateAll(Add(p, e), dts)) == 0
  {
    var q := Add(p, e);
    AddQueue(p, e);
    assert Contents(q) == [Initialized(e.x, e.y, e.dx, e.dy)];
    LoneRunExpires(q, 0.0, dts);
  }

  /** The particles an emission sequence initialises, in order. */
  function Inits(es: seq<Emission>): (r: seq<ParticleState>)
    ensures |r| == |es|
  {
    if es == [] then [] else
      var e := es[|es| - 1];
      Inits(es[..|es| - 1]) + [Initialized(e.x, e.y, e.dx, e.dy)]
  }

  /** add called once per emission, in order (the render loop). */
  function AddAll(p: Pool, es: seq<Emission>): (r: Pool)
    requires Valid(p)
    ensures Valid(r) && |r.slots| == |p.slots| && r.duration == p.duration
  {
    if es == [] then p else Add(AddAll(p, es[..|es| - 1]), es[|es| - 1])
  }

  /** Adding one more emission is one more add. */
  lemma AddAllSnoc(p: Pool, es: seq<Emission>, e: Emission)
    requires Valid(p)
    ensures AddAll(p, es + [e]) == Add(AddAll(p, es), e)
  {
    assert (es + [e])[..|es|] == es;
  }

  lemma KeepSnoc(s: seq<ParticleState>, x: ParticleState, m: nat)
    ensures Keep(Keep(s, m) + [x], m) == Keep(s + [x], m)
  {
  }

  /** The pool holds the last length - 1 particles ever added, in order of
    * addition: it never grows beyond length - 1 live particles and always
    * evicts the oldest. */
  lemma {:induction false} AddAllKeepsNewest(p: Pool, es: seq<Emission>)
    requires Valid(p)
    ensures Contents(AddAll(p, es)) == Keep(Contents(p) + Inits(es), |p.slots| - 1)
  {
    if es == [] {
      assert Contents(p) + Inits(es) == Contents(p);
    } else {
      var front, e := es[..|es| - 1], es[|es| - 1];
      assert es == front + [e];
      AddAllKeepsNewest(p, front);
      AddOneMore(p, front, e);
    }
  }

  lemma AddOneMore(p: Pool, front: seq<Emission>, e: Emission)
    requires Valid(p)
    requires Contents(AddAll(p, front)) == Keep(Contents(p) + Inits(front), |p.slots| - 1)
    ensures Contents(AddAll(p, front + [e])) == Keep(Contents(p) + Inits(front + [e]), |p.slots| - 1)
  {
    var x := Initialized(e.x, e.y, e.dx, e.dy);
    var q := AddAll(p, front);
    AddQueue(q, e);
    KeepChain(Contents(q), Contents(Add(q, e)), Contents(p), Inits(front), x, |p.slots| - 1);
    AddAllSnoc(p, front, e);
    InitsSnoc(front, e);
  }

  lemma InitsSnoc(es: seq<Emission>, e: Emission)
    ensures Inits(es + [e]) == Inits(es) + [Initialized(e.x, e.y, e.dx, e.dy)]
  {
    assert (es + [e])[..|es|] == es;
  }

  /** One add more hides no more than Keep allows: the queue step of
    * AddAllKeepsNewest, on plain sequences. */
  lemma KeepChain(cq: seq<ParticleState>, cr: seq<ParticleState>, start: seq<ParticleState>, added: seq<ParticleState>, x: ParticleState, m: nat)
    requires cq == Keep(start + added, m) && cr == Keep(cq + [x], m)
    ensures cr == Keep(start + (added + [x]), m)
  {
    KeepSnoc(start + added, x, m);
    assert start + (added + [x]) == (start + added) + [x];
  }

  /** Adding into an empty pool of n slots leaves min(k, n - 1) live
    * particles after k adds; in particular n adds leave n - 1. */
  lemma FillFromEmpty(n: nat, duration: real, es: seq<Emission>)
    requires 1 <= n
    ensures Size(AddAll(Empty(n, duration), es)) == if |es| < n - 1 then |es| else n - 1
  {
    var p := Empty(n, duration);
    AddAllKeepsNewest(p, es);
    assert Contents(p) + Inits(es) == Inits(es);
    assert |Keep(Inits(es), n - 1)| == if |es| < n - 1 then |es| else n - 1;
  }

  /** A whole frame of the render loop on the pool: the frame's emissions
    * are added in order, then the pool is updated by the frame's dt. */
  function Frame(p: Pool, es: seq<Emission>, dt: real): (r: Pool)
    requires Valid(p)
    ensures Valid(r) && |r.slots| == |p.slots| && r.duration == p.duration
  {
    Update(AddAll(p, es), dt)
  }

  /** Frames with dt >= 0 keep the queue in emission order, so after every
    * frame each live particle is younger than its lifetime. */
  lemma {:induction false} FrameKeepsOrder(p: Pool, es: seq<Emission>, dt: real)
    requires Valid(p) && Ordered(Contents(p)) && 0.0 <= dt
    ensures Ordered(Contents(Frame(p, es, dt)))
    ensures forall k :: 0 <= k < Size(Frame(p, es, dt)) ==> Contents(Frame(p, es, dt))[k].age < p.duration
  {
    AddAllKeepsOrder(p, es);
    UpdateExpiresExactly(AddAll(p, es), dt);
  }

  lemma {:induction false} AddAllKeepsOrder(p: Pool, es: seq<Emission>)
    requires Valid(p) && Ordered(Contents(p))
    ensures Ordered(Contents(AddAll(p, es)))
  {
    if es != [] {
      AddAllKeepsOrder(p, es[..|es| - 1]);
      AddKeepsOrder(AddAll(p, es[..|es| - 1]), es[|es| - 1]);
    }
  }

  /** Capacity 3, lifetime 2 s: three add(0, 0, 1, 0) leave two live
    * particles (the first is evicted), and update(2.1) then expires both. */
  lemma ThreeSlotScenario()
    ensures var e := Emission(0.0, 0.0, 1.0, 0.0);
      var q := AddAll(Empty(3, 2.0), [e, e, e]);
      Size(q) == 2 && Size(Update(q, 2.1)) == 0
  {
    var e := Emission(0.0, 0.0, 1.0, 0.0);
    var x := Initialized(0.0, 0.0, 1.0, 0.0);
    var p := Empty(3, 2.0);
    var q := AddAll(p, [e, e, e]);
    AddAllKeepsNewest(p, [e, e, e]);
    ThreeInits(e);
    assert Contents(p) + Inits([e, e, e]) == [x, x, x];
    assert Contents(q) == [x, x];
    AllExpire(q, 2.1);
  }

  lemma ThreeInits(e: Emission)
    ensures var x := Initialized(e.x, e.y, e.dx, e.dy); Inits([e, e, e]) == [x, x, x]
  {
    var x := Initialized(e.x, e.y, e.dx, e.dy);
    assert [e][..0] == [];
    assert Inits([e]) == [x];
    assert [e, e][..1] == [e];
    assert Inits([e, e]) == [x, x];
    assert [e, e, e][..2] == [e, e];
  }

  /** An update whose dt takes every live particle to its lifetime empties
    * the pool. */
  lemma AllExpire(q: Pool, dt: real)
    requires Valid(q)
    requires forall k :: 0 <= k < Size(q) ==> q.duration <= Contents(q)[k].age + dt
    ensures Size(Update(q, dt)) == 0
  {
  }
}
