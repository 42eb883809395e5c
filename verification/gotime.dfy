/**
 * The parts of Go's time package the cache uses. A time is modelled as the
 * number of nanoseconds since Go's zero time (January 1, year 1, 00:00 UTC),
 * which is what `time.Time{}` denotes; a Duration is a number of nanoseconds.
 * Go computes Unix() and UnixNano() in int64 arithmetic, which wraps around;
 * `Wrap64` makes that explicit.
 */
module GoTime {

  const NanosPerSecond: int := 1_000_000_000
  const Minute: int := 60 * NanosPerSecond
  /** Seconds from Go's zero time to the Unix epoch (January 1, 1970). */
  const ZeroToUnix: int := 62135596800

  const Two63: int := 0x8000_0000_0000_0000
  const Two64: int := 0x1_0000_0000_0000_0000

  predicate InInt64(x: int) {
    -Two63 <= x < Two63
  }

  /** The int64 that two's-complement arithmetic leaves for the mathematical value x. */
  function Wrap64(x: int): (r: int)
    ensures InInt64(r)
    ensures (x - r) % Two64 == 0
    ensures InInt64(x) ==> r == x
  {
    (x + Two63) % Two64 - Two63
  }

  /** Two values congruent modulo 2^64 wrap to the same int64. */
  lemma Wrap64Congruent(x: int, y: int, k: int)
    requires x == y + k * Two64
    ensures Wrap64(x) == Wrap64(y)
  {
    DivModUnique(x + Two63, Two64, (y + Two63) / Two64 + k, (y + Two63) % Two64);
  }

  /** Euclidean division is unique: a quotient and in-range remainder are THE quotient and remainder. */
  lemma DivModUnique(x: int, d: int, q: int, r: int)
    requires d > 0 && 0 <= r < d && x == q * d + r
    ensures x / d == q && x % d == r
  {
    var q0 := x / d;
    var r0 := x % d;
    assert x == q0 * d + r0;
    assert (q - q0) * d == r0 - r;
    MulSign(q - q0, d);
  }

  /** The sign facts about a product with a positive factor that the solver does not find alone. */
  lemma MulSign(a: int, d: int)
    requires d > 0
    ensures a >= 0 ==> a * d >= 0
    ensures a >= 1 ==> a * d >= d
    ensures a <= -1 ==> a * d <= -d
  {
    if a >= 1 {
      assert a * d == (a - 1) * d + d;
    } else if a <= -1 {
      assert a * d == (a + 1) * d - d;
    }
  }

  /**
   * t.Truncate(d): for d > 0, t rounded down to a multiple of d since the zero
   * time (Go's div takes a non-negative remainder also for times before it);
   * for d <= 0, t unchanged.
   */
  function Truncate(t: int, d: int): (r: int)
    ensures d <= 0 ==> r == t
    ensures d > 0 ==> r % d == 0 && r <= t < r + d
  {
    if d <= 0 then t
    else
      var r := t - t % d;
      assert r % d == 0 by {
        DivModUnique(r, d, t / d, 0);
      }
      r
  }

  /** The bucket start is the largest multiple of d not after t. */
  lemma TruncateIsLargest(t: int, d: int, m: int)
    requires d > 0 && m % d == 0 && m <= t
    ensures m <= Truncate(t, d)
  {
    var r := Truncate(t, d);
    var i := m / d;
    var j := r / d;
    assert m == i * d && r == j * d;
    assert t < (j + 1) * d;
    assert (i - j - 1) * d == i * d - (j + 1) * d;
    MulSign(i - j - 1, d);
    MulSign(j - i, d);
    assert j * d - i * d == (j - i) * d;
  }

  /** Two times share a bucket exactly when they have the same quotient by d. */
  lemma SameBucket(t1: int, t2: int, d: int)
    requires d > 0
    ensures Truncate(t1, d) == Truncate(t2, d) <==> t1 / d == t2 / d
  {
    assert Truncate(t1, d) == (t1 / d) * d;
    assert Truncate(t2, d) == (t2 / d) * d;
    if (t1 / d) * d == (t2 / d) * d {
      DivModUnique((t1 / d) * d, d, t1 / d, 0);
      DivModUnique((t2 / d) * d, d, t2 / d, 0);
    }
  }

  /**
   * t.Unix(): whole seconds since the Unix epoch, rounded down, as an int64.
   * The result is in the int64 range and congruent modulo 2^64 to the exact
   * floor, and it is that floor whenever the floor fits.
   */
  function Unix(t: int): (r: int)
    ensures InInt64(r)
    ensures (t / NanosPerSecond - ZeroToUnix - r) % Two64 == 0
    ensures InInt64(t / NanosPerSecond - ZeroToUnix) ==>
              r * NanosPerSecond <= t - ZeroToUnix * NanosPerSecond < (r + 1) * NanosPerSecond
  {
    Wrap64(t / NanosPerSecond - ZeroToUnix)
  }

  /**
   * t.UnixNano(): Go computes unixSec * 1e9 + nsec in int64 arithmetic. The
   * result is the nanosecond distance from the Unix epoch wrapped into an
   * int64, and exactly that distance whenever it fits, which holds from
   * 1677-09-21 00:12:43 UTC to 2262-04-11 23:47:16 UTC.
   */
  function UnixNano(t: int): (r: int)
    ensures r == Wrap64(t - ZeroToUnix * NanosPerSecond)
    ensures InInt64(t - ZeroToUnix * NanosPerSecond) ==> r == t - ZeroToUnix * NanosPerSecond
  {
    var s := t / NanosPerSecond - ZeroToUnix;
    var w := Unix(t);
    var k := (s - w) / Two64;
    assert s == w + k * Two64;
    var exact := s * NanosPerSecond + t % NanosPerSecond;
    assert exact == t - ZeroToUnix * NanosPerSecond;
    assert w * NanosPerSecond + t % NanosPerSecond == exact + (-k * NanosPerSecond) * Two64;
    Wrap64Congruent(w * NanosPerSecond + t % NanosPerSecond, exact, -k * NanosPerSecond);
    Wrap64(w * NanosPerSecond + t % NanosPerSecond)
  }

  /**
   * For a time Go can represent, whose seconds since the zero time fit in an
   * int64, Unix() subtracts the epoch offset and wraps at most once, adding
   * 2^64 only for times that reach back beyond the int64 range of Unix seconds.
   */
  lemma UnixOfRepresentable(s: int)
    requires InInt64(s)
    ensures Wrap64(s - ZeroToUnix) ==
              if s - ZeroToUnix >= -Two63 then s - ZeroToUnix else s - ZeroToUnix + Two64
  {
    var x := s - ZeroToUnix;
    if x < -Two63 {
      DivModUnique(x + Two63, Two64, -1, x + Two63 + Two64);
    }
  }

  /**
   * Unix() is injective on the times Go can represent: different whole
   * seconds since the zero time give different Unix seconds, wrapped or not.
   */
  lemma UnixInjective(t1: int, t2: int)
    requires InInt64(t1 / NanosPerSecond) && InInt64(t2 / NanosPerSecond)
    requires t1 / NanosPerSecond != t2 / NanosPerSecond
    ensures Unix(t1) != Unix(t2)
  {
    UnixOfRepresentable(t1 / NanosPerSecond);
    UnixOfRepresentable(t2 / NanosPerSecond);
  }
}
