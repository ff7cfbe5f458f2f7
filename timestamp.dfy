/**
 The timestamp triple of a packet message, c_src/epcap.c lines 323-325:
 `{abs(tv_sec / 1000000), tv_sec % 1000000, tv_usec}` evaluated with C's
 truncating `/` and `%` on a 64-bit `long`, the quotient narrowed to the
 32-bit `int` that `abs` takes.
 */
module Timestamp {
  import opened Bytes

  const MicrosPerSecond: int := 1_000_000

  /** C's `a / b` for `b > 0`: the quotient truncated toward zero. */
  function CDiv(a: int, b: int): int
    requires b > 0
  {
    if a >= 0 then a / b else -((-a) / b)
  }

  /** C's `a % b` for `b > 0`: the remainder that goes with `CDiv`, carrying the sign of `a`. */
  function CMod(a: int, b: int): (r: int)
    requires b > 0
    ensures CDiv(a, b) * b + r == a
    ensures a >= 0 ==> 0 <= r < b
    ensures a < 0 ==> -b < r <= 0
  {
    if a >= 0 then a % b else -((-a) % b)
  }

  /** Conversion of a `long` to `int` as GCC defines it (reduction modulo 2^32). */
  function ToCInt(x: int): (r: int)
    ensures IsInt32(r)
    ensures IsInt32(x) ==> r == x
    ensures (x - r) % TwoTo32 == 0
  {
    (x + TwoTo31) % TwoTo32 - TwoTo31
  }

  /** `abs` on an `int`; `abs(INT_MIN)` overflows and yields INT_MIN on a two's complement machine. */
  function CAbs(x: int): (r: int)
    requires IsInt32(x)
    ensures IsInt32(r)
    ensures x > -(TwoTo31 as int) ==> r >= 0 && (r == x || r == -x)
    ensures x == -(TwoTo31 as int) ==> r == x
  {
    if x == -(TwoTo31 as int) then x else if x < 0 then -x else x
  }

  datatype TimeTriple = TimeTriple(megaSec: int, sec: int, microSec: int)

  /** The triple the encoder sends for a `struct timeval`. */
  function Triple(tvSec: int, tvUsec: int): TimeTriple
  {
    TimeTriple(CAbs(ToCInt(CDiv(tvSec, MicrosPerSecond))), CMod(tvSec, MicrosPerSecond), tvUsec)
  }

  /** How a consumer rebuilds seconds from the triple, ignoring any sign. */
  function Reconstruct(t: TimeTriple): int
  {
    t.megaSec * MicrosPerSecond + t.sec
  }

  /** Seconds whose mega-second part fits a C `int` without wrapping. */
  predicate NoNarrowing(tvSec: int)
  {
    -(TwoTo31 as int) * MicrosPerSecond < tvSec < TwoTo31 * MicrosPerSecond
  }

  /** For a non-negative time the triple splits the seconds exactly. */
  lemma NonNegativeSplit(tvSec: int, tvUsec: int)
    requires 0 <= tvSec && NoNarrowing(tvSec)
    ensures var t := Triple(tvSec, tvUsec);
      && 0 <= t.megaSec && 0 <= t.sec < MicrosPerSecond
      && Reconstruct(t) == tvSec
      && t.microSec == tvUsec
  {
  }

  /**
   For a time before the epoch the mega-second part loses its sign while the
   remainder keeps it, so the naive reconstruction is right only within the
   first million seconds before the epoch; negating the mega-second part
   recovers the time.
   */
  lemma NegativeSignLoss(tvSec: int, tvUsec: int)
    requires tvSec < 0 && NoNarrowing(tvSec)
    ensures var t := Triple(tvSec, tvUsec);
      && 0 <= t.megaSec && -MicrosPerSecond < t.sec <= 0
      && -t.megaSec * MicrosPerSecond + t.sec == tvSec
      && (Reconstruct(t) == tvSec <==> tvSec > -MicrosPerSecond)
  {
  }

  /** Whole mega-seconds before and after the epoch give the same triple: the sign is not recoverable. */
  lemma TripleNotInjective(k: int, tvUsec: int)
    requires 0 < k < TwoTo31
    ensures k * MicrosPerSecond != -k * MicrosPerSecond
    ensures Triple(k * MicrosPerSecond, tvUsec) == Triple(-k * MicrosPerSecond, tvUsec)
  {
  }

  /** A quotient that does not fit an `int` wraps before `abs`: at 2^31 mega-seconds the part turns negative. */
  lemma NarrowingWraps(tvUsec: int)
    ensures Triple(TwoTo31 * MicrosPerSecond, tvUsec).megaSec == -(TwoTo31 as int)
  {
  }

  /** Two worked examples: 1 700 000 000 s is exactly 1700 mega-seconds; 1 700 700 000 s leaves 700 000. */
  lemma Examples()
    ensures Triple(1_700_000_000, 500) == TimeTriple(1700, 0, 500)
    ensures Triple(1_700_700_000, 500) == TimeTriple(1700, 700000, 500)
  {
  }
}
