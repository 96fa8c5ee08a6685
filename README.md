# Heart particle pool, modelled in Dafny

The page script `js/main.js` draws a heart made of fading particles. Its one
piece of real logic is the particle pool: a fixed array of `Particle`
objects, allocated once and reused in place, run as a circular queue by two
cursors, `firstActive` (the oldest live particle) and `firstFree` (the next
slot to write). `add` reinitialises the slot at `firstFree` and advances it;
when it lands on `firstActive` the oldest particle is evicted, so `add`
never fails. `update` ages every live particle (one pass, or two when the
live range wraps round the end of the array) and then pops expired
particles from the front only.

This project models that pool in two layers:

- `PoolModel` (pool_model.dfy) is the pool as a value: `Pool(slots,
  firstActive, firstFree, duration)`, with `Add`, `Aged`, `Expire` and
  `Update` as functions, and `Contents`, the live particles as a queue,
  oldest first. The lemmas about the pool are stated here.
- `ParticlePools.ParticlePool` (pool.dfy) is the imperative pool: a class
  over an `array<Particle>` of `Particles.Particle` objects with the fields
  `firstActive`, `firstFree` and `duration`, whose `Add` and `Update`
  follow the source statement by statement (the `for` passes over the two
  sub-ranges, the `while` expiry loop) and are proved to produce the state
  the value model gives.

The other modules: `Settings` (the `settings.particles` record of
js/main.js:1-13: `length`, `duration` and `effect`, which the core reads,
and the emission rate of js/main.js:244; `velocity` and `size` only feed
the emitter's direction and the sprite, both left out), `Ring`
(cursor arithmetic: step, count, `k`-th slot and the live range),
`Particles` (the particle state, `initialize`, `update`, and the easing and
opacity of `draw`), and `Render` (the emission loop of `render()` and one
frame of it as seen by the pool).

Decisions worth knowing when reading the model:

- In the source, the particle array and both cursors are variables of the
  closure that builds `ParticlePool`, so every pool instance shares them.
  Here they are fields of one object; with the single pool the page creates
  the behaviour is the same.
- The source's `duration` is read from the settings once, when the script
  loads. The class takes it from `Settings.Duration`; the value model takes
  any duration.
- `new ParticlePool(0)` is not modelled: `add` and `update` would then
  index an empty array and throw. The constructor requires at least one
  slot.
- A point is modelled as a value (`Particles.Point`). Each `Point` object
  of the source belongs to one particle and is only changed through it.
- The two halves of `update` are written as methods of their own,
  `ParticlePool.AgeLive` (the `for` passes) and `ParticlePool.RemoveExpired`
  (the `while` expiry loop), which `Update` calls in that order, and the emission
  loop of `render()` is `Render.Emit`, which `Render.Frame` calls. The loops
  are the source's. Splitting them out keeps each proof small.
- Numbers are Dafny reals, so they are exact. The source computes in
  double-precision floating point.

Two behaviours of the code are easy to misread; the model follows the code:

- The pool never holds `length` particles, only `length - 1`. When
  `firstFree` catches up with `firstActive`, `firstActive` moves on at once.
  So `length + 1` adds into an empty pool leave `length - 1` particles, and
  the first two added are gone (`PoolModel.AddAllKeepsNewest`,
  `PoolModel.FillFromEmpty`). In the three-slot scenario, three adds leave
  two particles (`PoolModel.ThreeSlotScenario`).
- The frame emits `for (i = 0; i < amount; i++)` particles. That is
  `amount` rounded up, not truncated: a positive fractional `amount` gives
  one more particle than its integer part (`Render.EmissionCount`,
  `Render.EmissionCountRoundsUp`). So the rate `length / duration` is a
  lower bound: frames lasting one lifetime emit at least `length`
  particles, usually more; at 60 frames a second, 600 per lifetime
  (`Render.LifetimeEmitsAtLeastLength`, `Render.SixtyHertz`).

## Model

| member | source | states |
|---|---|---|
| `Settings.RateFillsPoolPerLifetime` | js/main.js:243-244 | the emission rate `length / duration` is 250 a second, and rate times lifetime is exactly `length` (the particles asked for per lifetime, before each frame rounds up) |
| `Ring.Next` | js/main.js:182-188 | the cursor step (increment, wrap to 0 at the length) stays in range and gives 0 exactly from the last slot |
| `Ring.NextIsModular` | js/main.js:182-188 | the cursor step is `(i + 1) mod length` |
| `Ring.Count` | js/main.js:182-188 | the forward distance between two cursors is below the length, so the live count never exceeds `length - 1`, and it is 0 exactly when the cursors are equal |
| `Ring.CountIsModular` | js/main.js:182-188 | the live count is `(firstFree - firstActive) mod length` |
| `Ring.Index` | js/main.js:196-205 | the slot `k` steps after a cursor is in range, and `Count` gives back `k` (the two are inverse) |
| `Ring.IndexOfCount` | js/main.js:196-205 | the other inverse direction: walking `Count(from, i)` steps from `from` reaches slot `i` |
| `Ring.LiveIffSourceRanges` | js/main.js:196-205 | the circular live range is exactly `[firstActive, firstFree)` when `firstActive < firstFree`, `[firstActive, length)` plus `[0, firstFree)` when `firstFree < firstActive`, and empty when they are equal |
| `Ring.CountAfterNext` | js/main.js:209-213 | advancing `firstActive` of a non-empty range shrinks it by exactly one |
| `Particles.Initialized` | js/main.js:108-122 | `initialize` puts the particle at `(x, y)` with age 0, velocity `(dx, dy)` and acceleration `velocity * effect` |
| `Particles.Stepped` | js/main.js:124-134 | one explicit Euler step grows the age by `dt`, keeps the acceleration, and a step of `dt = 0` changes nothing |
| `Particles.SteppedStaysOnTrajectory` | js/main.js:124-134 | one `update` step adds `dt` to the age, keeps the acceleration and keeps the velocity at `v0 + v0 * effect * age` |
| `Particles.TrajectoryTurnsBack` | js/main.js:9 | with effect -0.75 a particle stops at age 4/3 s and then moves backwards (the curl) |
| `Particles.Ease` | js/main.js:137-139 | the easing `--t * t * t + 1`, i.e. `(t - 1)^3 + 1`, gives 0 at `t = 0` and 1 at `t = 1` |
| `Particles.EaseMonotone` | js/main.js:137-139 | `ease(t) = (t - 1)^3 + 1` never decreases |
| `Particles.EaseUnitRange` | js/main.js:137-139 | on `[0, 1]` the easing stays in `[0, 1]` |
| `Particles.DrawSize` | js/main.js:141 | the sprite side `image.width * ease(age / duration)` is 0 at birth and the full width at the end of the lifetime |
| `Particles.DrawSizeGrows` | js/main.js:141 | the drawn sprite size grows with age, from 0 at age 0 to the image width at the end of the lifetime |
| `Particles.Opacity` | js/main.js:143 | the alpha `1 - age / duration` is 1 exactly at age 0 and 0 exactly at the lifetime |
| `Particles.OpacityFades` | js/main.js:143 | opacity `1 - age / duration` falls with age, is 1 at age 0 and 0 at the lifetime, and stays in `[0, 1]` during it |
| `Particles.Particle.constructor` | js/main.js:98-106 | a new particle is all zero |
| `Particles.Particle.Initialize` | js/main.js:108-122 | the fields assigned in place give the state `Initialized(x, y, dx, dy)` |
| `Particles.Particle.Update` | js/main.js:124-134 | the fields assigned in place give one integration step of the old state |
| `PoolModel.LiveIffListed` | js/main.js:196-205 | a slot is live exactly when the queue `Contents` lists it |
| `PoolModel.Empty` | js/main.js:165-175 | the new pool has `length` blank slots, both cursors at 0 and no live particle |
| `PoolModel.Add` | js/main.js:177-189 | add writes only the slot at the old `firstFree`, moves `firstFree` one step, moves `firstActive` one step exactly when it would equal the new `firstFree`, and keeps both cursors in range |
| `PoolModel.AddQueue` | js/main.js:177-189 | as a queue, add appends the new particle and evicts the oldest exactly when `length - 1` were live |
| `PoolModel.Aged` | js/main.js:196-205 | the aging pass keeps both cursors and the slot count |
| `PoolModel.AgedQueue` | js/main.js:196-205 | as a queue, the aging pass steps each live particle by `dt` and keeps their order |
| `PoolModel.AgedTouchesLiveRange` | js/main.js:196-205 | in the source's two branches, the slots of the live range age by `dt` and every other slot (all slots of an empty pool) is unchanged |
| `PoolModel.ExpiredFront` | js/main.js:209-213 | the expiry loop ends with `firstActive` in range |
| `PoolModel.ExpirePopsExpired` | js/main.js:209-213 | the expiry loop pops a prefix of the queue, every popped particle had reached its lifetime, and the new front (if any) has not |
| `PoolModel.Expire` | js/main.js:209-213 | expiry changes no slot and never moves `firstFree`; it only advances `firstActive` towards `firstFree`, never past it, with the pop-from-front guarantee above |
| `PoolModel.Update` | js/main.js:191-214 | update never moves `firstFree`, and what survives is a suffix of the aged queue whose dropped part had all expired and whose front has not |
| `PoolModel.UpdateEmpty` | js/main.js:196-213 | updating an empty pool changes nothing |
| `PoolModel.AddKeepsOrder` | js/main.js:177-189 | add keeps ages non-increasing from the oldest to the newest particle |
| `PoolModel.StepAllKeepsOrder` | js/main.js:196-205 | aging every live particle by the same `dt >= 0` keeps them in order |
| `PoolModel.OrderedSurvivors` | js/main.js:209-213 | on an ordered queue, popping expired particles from the front leaves exactly the unexpired ones |
| `PoolModel.UpdateExpiresExactly` | js/main.js:191-214 | with `dt >= 0`, update keeps the FIFO age order and a particle survives exactly when its new age is below the lifetime: front-only removal finds every expired particle |
| `PoolModel.UpdateAll` | js/main.js:191-214 | repeated calls of `update`, once per time of the run, in order, keep the pool valid and never move `firstFree` |
| `PoolModel.EmptyStaysEmpty` | js/main.js:196-213 | an empty pool is unchanged by any run of updates |
| `PoolModel.LoneUpdate` | js/main.js:191-214 | one update of a pool holding one particle removes it exactly when its new age reaches the lifetime, and otherwise leaves it alone with its age grown by `dt` |
| `PoolModel.LoneRunExpires` | js/main.js:191-214 | a pool that is empty or holds one particle of age `a` is empty after a non-empty run of updates whose dts take `a` to the lifetime |
| `PoolModel.LoneParticleExpires` | js/main.js:177-214 | a particle added alone into an empty pool is the only live one, and it is removed after any non-empty run of updates whose dts sum to the lifetime or more |
| `PoolModel.AllExpire` | js/main.js:191-214 | an update that takes every live particle to its lifetime empties the pool |
| `PoolModel.AddAllKeepsNewest` | js/main.js:177-189 | after any sequence of adds the pool holds the last `length - 1` particles added, oldest first |
| `PoolModel.FillFromEmpty` | js/main.js:182-188 | `k` adds into an empty pool leave `min(k, length - 1)` live particles; `length` adds leave `length - 1` |
| `PoolModel.AddAll` | js/main.js:342-353 | `add` once per emission, in order, keeps the pool valid, its slot count and its duration |
| `PoolModel.AddAllSnoc` | js/main.js:342-353 | one more emission is one more add |
| `PoolModel.Frame` | js/main.js:340-357 | one frame on the pool value, the emissions added then `update(dt)`, keeps the pool valid, its slot count and its duration |
| `PoolModel.FrameKeepsOrder` | js/main.js:340-357 | frames with `dt >= 0` keep the age order, so after every frame each live particle is younger than its lifetime |
| `PoolModel.AddAllKeepsOrder` | js/main.js:177-189 | any sequence of adds keeps the age order |
| `PoolModel.ThreeSlotScenario` | js/main.js:177-214 | capacity 3, lifetime 2: three `add(0, 0, 1, 0)` leave two particles and `update(2.1)` expires both |
| `ParticlePools.ParticlePool.constructor` | js/main.js:169-175 | the constructor allocates one distinct fresh particle per slot and gives the empty pool |
| `ParticlePools.ParticlePool.Add` | js/main.js:177-189 | the in-place add keeps the pool valid and gives exactly `PoolModel.Add` of the old state |
| `ParticlePools.ParticlePool.Update` | js/main.js:191-214 | the aging passes followed by the expiry loop give exactly `PoolModel.Update` of the old state |
| `ParticlePools.ParticlePool.AgeLive` | js/main.js:194-205 | the no-wrap `for` pass, or the two wrap `for` passes, change only particle objects and give exactly `PoolModel.Aged` of the old state |
| `ParticlePools.ParticlePool.RemoveExpired` | js/main.js:209-213 | the `while` expiry loop gives exactly `PoolModel.Expire` of the old state |
| `Render.EmissionCount` | js/main.js:342 | the number of turns of `for (i = 0; i < amount; i++)` is the least natural number not below `amount` |
| `Render.EmissionCountRoundsUp` | js/main.js:342 | a positive fractional `amount` yields its integer part plus one |
| `Render.Drawn` | js/main.js:343-345 | the emissions of the first `count` turns are the spawn points in turn order |
| `Render.Emit` | js/main.js:340-353 | the emission loop runs `EmissionCount(amount)` times and adds the spawn points in order |
| `Render.Frame` | js/main.js:340-357 | one frame adds `EmissionCount(Rate * dt)` particles and then updates the pool by `dt` |
| `Render.EmittedAtLeastRate` | js/main.js:340-342 | over a run of frames, the particles emitted in all (`EmittedOver`, one rounded-up count per frame) are at least `Rate` times the run's total time |
| `Render.LifetimeEmitsAtLeastLength` | js/main.js:340-342 | frames that together last at least one lifetime emit at least `length` particles |
| `Render.EqualFramesLast` | js/main.js:340-342 | `k` frames of time `dt` last `k * dt` |
| `Render.EqualFramesEmit` | js/main.js:340-342 | `k` frames of time `dt` emit `k` times what one such frame emits |
| `Render.SixtyHertz` | js/main.js:340-342 | a 1/60 s frame emits 5 particles (250/60 rounded up), so `k` such frames last `k/60` s and emit `5k`: one 2 s lifetime emits 600, more than `length` |

## Left out

- The `requestAnimationFrame` polyfill (js/main.js:21-46): browser feature detection and timers.
- `Point.clone`, `Point.length` and `Point.normalize` (js/main.js:61-86): square roots on floats; the emitter's direction is a parameter instead.
- `pointOnHeart` and the sprite rasterisation (js/main.js:249-318): trigonometry and canvas path, fill and `toDataURL` calls.
- The canvas calls of `Particle.draw` and the whole of `ParticlePool.draw` (js/main.js:145-151, 216-230): `drawImage` and `globalAlpha` are foreign canvas API. The size and opacity they are given are modelled (`Particles.DrawSize`, `Particles.Opacity`).
- The clock and the randomness of `render()` (js/main.js:322-336, 343-345): `deltaTime` is a parameter of `Render.Frame`, and the random heart point and direction of turn `i` are the parameter `spawn(i)`. Clearing the canvas is left out.
- Canvas resizing (js/main.js:364-370) and the audio `play` trigger (js/main.js:383-388): DOM and I/O glue.
- The snowflake effect (js/main.js:390): DOM cloning, CSS transforms, `Math.random` and `sin`/`cos` drift.
- Floating-point rounding: every quantity is an exact real.
- ParticlePools.ParticlePool.constructor: construction with 0 slots is excluded by `requires 1 <= length`. The source constructs such a pool, and its first `add` or `update` then throws a TypeError on the empty array (js/main.js:178, 209). That failure is not modelled.
- Sharing of one array and one pair of cursors by all `ParticlePool` instances: each object has its own.
