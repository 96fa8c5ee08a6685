// Cursor arithmetic of the circular particle queue: two cursors into an
// array of n slots, the live slots being those from the first cursor
// (inclusive) to the second (exclusive), walking forwards and wrapping.
module Ring {
  /** The cursor step of ParticlePool.add and of the expiry loop:
    * increment, and return to 0 on reaching the length. */
  function Next(i: nat, n: nat): (r: nat)
    requires i < n
    ensures r < n
    ensures r == 0 <==> i == n - 1
  {
    if i + 1 == n then 0 else i + 1
  }

  /** Number of forward steps from cursor `from` to cursor `to`,
    * i.e. (to - from) mod n; with from = firstActive and to = firstFree
    * it is the number of live particles. */
  function Count(from: nat, to: nat, n: nat): (r: nat)
    requires from < n && to < n
    ensures r < n
    ensures r == 0 <==> from == to
  {
    if from <= to then to - from else to + n - from
  }

  /** The slot reached after k forward steps from `from`. */
  function Index(from: nat, k: nat, n: nat): (r: nat)
    requires from < n && k < n
    ensures r < n
    ensures Count(from, r, n) == k
  {
    if from + k < n then from + k else from + k - n
  }

  /** Slot i belongs to the circular half-open range [first, last). */
  predicate Live(i: nat, first: nat, last: nat, n: nat)
    requires i < n && first < n && last < n
  {
    Count(first, i, n) < Count(first, last, n)
  }

  /** The cursor step is the increment modulo the length. */
  lemma NextIsModular(i: nat, n: nat)
    requires i < n
    ensures Next(i, n) == (i + 1) % n
  {
    if i + 1 < n {
      ModOfSmall(i + 1, n);
    }
  }

  /** The live count is (to - from) modulo the length. */
  lemma CountIsModular(from: nat, to: nat, n: nat)
    requires from < n && to < n
    ensures Count(from, to, n) == (to - from) % n
  {
    if from <= to {
      ModOfSmall(to - from, n);
    } else {
      ModOfNegative(to - from, n);
    }
  }

  lemma ModOfSmall(x: int, n: nat)
    requires 0 <= x < n
    ensures x % n == x
  {
  }

  lemma ModOfNegative(x: int, n: int)
    requires 0 - n <= x < 0
    ensures x % n == x + n
  {
  }

  /** Index undoes Count: every slot is reached from `from` after exactly
    * Count(from, i, n) steps, so Index and Count are inverse bijections
    * between slots and step counts. */
  lemma IndexOfCount(from: nat, i: nat, n: nat)
    requires from < n && i < n
    ensures Index(from, Count(from, i, n), n) == i
  {
  }

  /** The circular range agrees with the two linear cases that
    * ParticlePool.update and ParticlePool.draw iterate over: [first, last)
    * when first < last, [first, n) followed by [0, last) when last < first,
    * and nothing when the cursors are equal. */
  lemma LiveIffSourceRanges(i: nat, first: nat, last: nat, n: nat)
    requires i < n && first < n && last < n
    ensures Live(i, first, last, n) <==>
      (first < last && first <= i < last) ||
      (last < first && (first <= i < n || 0 <= i < last))
  {
  }

  /** Advancing the start cursor shifts every step count by one. */
  lemma IndexAfterNext(from: nat, k: nat, n: nat)
    requires from < n && k + 1 < n
    ensures Index(Next(from, n), k, n) == Index(from, k + 1, n)
  {
  }

  /** Advancing the first cursor of a non-empty range removes exactly
    * one slot from it. */
  lemma CountAfterNext(from: nat, to: nat, n: nat)
    requires from < n && to < n && from != to
    ensures Count(Next(from, n), to, n) == Count(from, to, n) - 1
  {
  }
}
