/** The write-rate limiter of the record store (src/filesystem.cpp
    `writing_too_fast`): a record may be written only while the average
    number of writes per day since the first record stays within budget. */
module RateLimit {
  import opened Words

  const MaxWritesPerDay: nat := 200
  const SecPerDay: nat := 86400

  /** `writing_too_fast(timestamp, first_timestamp, id)`. The product is
      taken in 64 bits (it cannot overflow there) and the quotient is
      truncated back to 32 bits before it is compared. */
  function WritingTooFast(timestamp: u32, firstTimestamp: u32, id: u32): bool
  {
    if timestamp == firstTimestamp && id == 0 then false
    else if timestamp <= firstTimestamp || id == Ones then true
    else (id * SecPerDay / (timestamp - firstTimestamp)) % U32 > MaxWritesPerDay
  }

  lemma DivAtLeast(a: nat, b: nat, k: nat)
    requires b > 0
    ensures a / b >= k <==> a >= k * b
  {
    var q, r := a / b, a % b;
    assert a == q * b + r;
    if q >= k {
      MulMono(k, q, b);
    } else {
      MulMono(q + 1, k, b);
      Distrib(q + 1, 1, b);
    }
  }

  lemma MulMono(a: nat, c: nat, b: nat)
    requires a <= c
    ensures a * b <= c * b
  {
    Distrib(c, a, b);
  }

  /** When the quotient fits in 32 bits (always so after the first day of
      operation), the limiter holds a record back exactly when writing it
      would bring the average above 200 per day:
      id * 86400 >= 201 * lifetime. */
  lemma Budget(timestamp: u32, firstTimestamp: u32, id: u32)
    requires firstTimestamp < timestamp && id != Ones
    requires timestamp - firstTimestamp >= SecPerDay
    ensures WritingTooFast(timestamp, firstTimestamp, id) <==>
      id * SecPerDay >= (MaxWritesPerDay + 1) * (timestamp - firstTimestamp)
  {
    var life := timestamp - firstTimestamp;
    var p := id * SecPerDay;
    var q := p / life;
    assert WritingTooFast(timestamp, firstTimestamp, id) == (q % U32 > MaxWritesPerDay);
    QuotientFits(id, life);
    SmallMod(q);
    DivAtLeast(p, life, MaxWritesPerDay + 1);
  }

  lemma SmallMod(x: int)
    requires 0 <= x < U32
    ensures x % U32 == x
  {
  }

  /** With a lifetime of at least a day the quotient is at most the id. */
  lemma QuotientFits(id: nat, life: nat)
    requires life >= SecPerDay && id < U32
    ensures 0 <= id * SecPerDay / life <= id
  {
    MulMono(0, id, SecPerDay);
    MulMono(SecPerDay, life, id);
    assert id * SecPerDay <= id * life;
    Distrib(id + 1, id, life);
    assert id * SecPerDay < (id + 1) * life;
    DivAtLeast(id * SecPerDay, life, id + 1);
  }

  /** The truncation to 32 bits: 2^25 writes within one second have a true
      rate of 2^25 * 86400 = 675 * 2^32 writes per day, which truncates to
      0 and is let through. No real pool reaches such an id. */
  lemma TruncatedQuotient()
    ensures !WritingTooFast(1, 0, 0x200_0000)
  {
    assert 0x200_0000 * SecPerDay == 675 * U32;
  }

  /** `(timestamp / sec_per_day + 1) * sec_per_day` in 32-bit arithmetic:
      the next midnight (UTC) after `timestamp`. */
  function NextMidnight(timestamp: u32): u32
  {
    ((timestamp / SecPerDay + 1) * SecPerDay) % U32
  }

  /** Until the last day the 32-bit clock can represent, the deferred
      write is due at the first midnight strictly after the clock that
      armed it, at most a day later. */
  lemma NextMidnightAhead(timestamp: u32)
    requires timestamp < (U32 / SecPerDay) * SecPerDay
    ensures var m := NextMidnight(timestamp);
      timestamp < m <= timestamp + SecPerDay && m % SecPerDay == 0
  {
    var d := timestamp / SecPerDay;
    assert d < U32 / SecPerDay;
    MulMono(d + 1, U32 / SecPerDay, SecPerDay);
    SmallMod((d + 1) * SecPerDay);
    DivUnique((d + 1) * SecPerDay, SecPerDay, d + 1, 0);
  }

  /** On the clock's last partial day (from 2106-02-07 06:28:16 UTC, past
      the last midnight the clock can hold) the product wraps, and the
      deferred write is due at once. */
  lemma NextMidnightWraps()
    ensures NextMidnight(Ones) == 63104 && 63104 < Ones
  {
  }
}
