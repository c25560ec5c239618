/** Stays as half-open intervals of instants, the overlap test used by the
    conflict queries, and the number of nights a stay is charged for. */
module DateRanges {
  import opened Common

  /** A stay occupying the instants in [checkIn, checkOut). */
  datatype DateRange = DateRange(checkIn: Instant, checkOut: Instant)

  /** A stay the services accept: check-out strictly after check-in. */
  predicate Valid(r: DateRange) {
    r.checkIn < r.checkOut
  }

  /** The stay holds the room at instant `t`; the check-out instant is free again. */
  predicate Occupies(r: DateRange, t: Instant) {
    r.checkIn <= t < r.checkOut
  }

  /** The conflict test of the booking queries, with `existing` in the role of
      the stored booking and `candidate` in the role of the requested dates. */
  predicate Overlaps(existing: DateRange, candidate: DateRange) {
    existing.checkIn < candidate.checkOut && existing.checkOut > candidate.checkIn
  }

  /** For valid stays the overlap test is exactly "some instant is held by both
      stays"; an inverted range can pass the test while holding no instant. */
  lemma OverlapsIffSharedInstant(a: DateRange, b: DateRange)
    requires Valid(a) && Valid(b)
    ensures Overlaps(a, b) <==> exists t :: Occupies(a, t) && Occupies(b, t)
  {
    if Overlaps(a, b) {
      var t := if a.checkIn < b.checkIn then b.checkIn else a.checkIn;
      assert Occupies(a, t) && Occupies(b, t);
    }
  }

  /** Which stay plays the stored role does not matter. */
  lemma OverlapsSymmetric(a: DateRange, b: DateRange)
    ensures Overlaps(a, b) <==> Overlaps(b, a)
  {
  }

  /** Back-to-back stays, one checking out when the next checks in, never overlap. */
  lemma BackToBackDisjoint(a: DateRange, b: DateRange)
    requires a.checkOut == b.checkIn
    ensures !Overlaps(a, b) && !Overlaps(b, a)
  {
  }

  /** A valid stay overlaps itself, so re-booking the same dates is a conflict. */
  lemma ValidOverlapsItself(r: DateRange)
    requires Valid(r)
    ensures Overlaps(r, r)
  {
  }

  /** Nights charged for a stay: the length in days rounded up, so a partial
      day counts as a whole night. */
  function Nights(r: DateRange): (n: nat)
    requires Valid(r)
    ensures n >= 1
    ensures (n - 1) * DayMs < r.checkOut - r.checkIn <= n * DayMs
  {
    var span := r.checkOut - r.checkIn;
    var q := (span + DayMs - 1) / DayMs;
    assert q * DayMs + (span + DayMs - 1) % DayMs == span + DayMs - 1;
    q
  }

  /** The ceiling is unique: no other count brackets the stay's length. */
  lemma NightsUnique(r: DateRange, k: int)
    requires Valid(r)
    requires (k - 1) * DayMs < r.checkOut - r.checkIn <= k * DayMs
    ensures Nights(r) == k
  {
  }

  /** A stay between two midnights is charged one night per calendar day. */
  lemma NightsOfWholeDays(r: DateRange, days: int)
    requires days >= 1
    requires r.checkOut - r.checkIn == days * DayMs
    ensures Nights(r) == days
  {
    NightsUnique(r, days);
  }
}
