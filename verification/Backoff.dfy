/** The delay before a retry (redisRetryDelay in pkg/storage/redis_cluster.go), in nanoseconds. */
module Backoff {
  import opened MachineInts

  const INITIAL: int64 := 1_000_000_000
  const MAX: int64 := 30_000_000_000
  const HEALTHY: int64 := 30_000_000_000

  function Pow2(n: nat): nat {
    if n == 0 then 1 else 2 * Pow2(n - 1)
  }

  /** The undisturbed delay after `failures` consecutive failures: doubled each time, capped. */
  function Nominal(failures: int): int
    requires failures >= 1
  {
    var doubled := Pow2(failures - 1) * INITIAL as int;
    if doubled > MAX as int then MAX as int else doubled
  }

  /** The nominal delay with a draw of at most its half added to the other half. */
  function Jittered(failures: int, draw: int): int
    requires failures >= 1
  {
    Nominal(failures) / 2 + draw
  }

  lemma {:induction false} NominalIsEven(failures: int)
    requires failures >= 1
    ensures Nominal(failures) > 0 && Nominal(failures) % 2 == 0
  {
    Pow2IsPositive(failures - 1);
  }

  lemma {:induction false} Pow2IsPositive(n: nat)
    ensures Pow2(n) >= 1
  {
    if n > 0 {
      Pow2IsPositive(n - 1);
    }
  }

  /** Every possible draw keeps the delay between half and all of the nominal one. */
  lemma JitterStaysInBand(failures: int, draw: int)
    requires failures >= 1 && 0 <= draw <= Nominal(failures) / 2
    ensures Nominal(failures) <= 2 * Jittered(failures, draw) <= 2 * Nominal(failures)
  {
    NominalIsEven(failures);
  }

  /** One, two, four, eight and sixteen seconds, and thirty from then on. */
  lemma NominalTable(failures: int)
    requires failures >= 1
    ensures Nominal(failures) == match failures
            case 1 => 1_000_000_000
            case 2 => 2_000_000_000
            case 3 => 4_000_000_000
            case 4 => 8_000_000_000
            case 5 => 16_000_000_000
            case _ => 30_000_000_000
  {
    Pow2Grows(failures - 1);
    assert Pow2(0) == 1 && Pow2(1) == 2 && Pow2(2) == 4 && Pow2(3) == 8 && Pow2(4) == 16;
  }

  lemma {:induction false} Pow2Grows(n: nat)
    ensures n >= 5 ==> Pow2(n) >= 32
  {
    assert Pow2(0) == 1 && Pow2(1) == 2 && Pow2(2) == 4 && Pow2(3) == 8 && Pow2(4) == 16 && Pow2(5) == 32;
    if n > 5 {
      Pow2Grows(n - 1);
    }
  }

  /** `rand` is rand.Int63n. The delay lies between half and all of the nominal one, after at most
      five doublings, for every failure count and every draw. */
  method RetryDelay(failures: int64, rand: int64 -> int64) returns (delay: int64, ghost doublings: nat)
    requires forall n :: n > 0 ==> 0 <= rand(n) < n
    ensures failures < 1 ==> delay == INITIAL
    ensures failures >= 1 ==> Nominal(failures as int) <= 2 * delay as int <= 2 * Nominal(failures as int)
    ensures failures >= 1 ==>
              delay as int == Jittered(failures as int, rand((Nominal(failures as int) / 2 + 1) as int64) as int)
    ensures doublings <= 5
  {
    doublings := 0;
    if failures < 1 {
      return INITIAL, 0;
    }
    delay := INITIAL;
    var attempt: int64 := 1;
    while attempt < failures && delay < MAX
      invariant 1 <= attempt <= failures
      invariant doublings as int == attempt as int - 1 <= 5
      invariant delay as int == Pow2(doublings) * INITIAL as int
      decreases failures - attempt
    {
      Pow2Grows(doublings);
      delay := delay * 2;
      attempt := attempt + 1;
      doublings := doublings + 1;
    }
    Pow2Grows(failures as int - 1);
    Pow2Grows(doublings);
    if delay > MAX {
      delay := MAX;
    }
    assert delay as int == Nominal(failures as int);
    var half := delay / 2;
    delay := half + rand(half + 1);
  }
}
