// The process-wide configuration record `settings.particles` of js/main.js.
module Settings {
  /** Number of particle slots in the pool. */
  const Length: nat := 500

  /** Lifetime of a particle, in seconds. */
  const Duration: real := 2.0

  /** Curl coefficient: a particle's acceleration is its initial velocity times this. */
  const Effect: real := -0.75

  /** Emission rate of the render loop, in particles per second. */
  const Rate: real := Length as real / Duration

  /** The emission rate is 250 particles a second, and over one 2 s
    * lifetime it asks for exactly the 500 slots of the pool. (Each frame
    * rounds its count up, so the particles actually emitted per lifetime
    * are at least that many, usually more.) */
  lemma RateFillsPoolPerLifetime()
    ensures Rate == 250.0 && Rate * Duration == Length as real
    ensures 0.0 < Duration && 2 <= Length
  {
  }
}
