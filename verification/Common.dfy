/** Types shared by every module: optional values, results, byte strings. */
module Common {
  datatype Option<+T> = None | Some(value: T)

  /** The errors a cache call can answer with. `InvalidExpireTime` is the Redis server's own refusal. */
  datatype Error = KeyNotFound | KeyExists | InvalidExpireTime

  datatype Result<+T> = Ok(value: T) | Err(error: Error)

  newtype byte = b: int | 0 <= b < 256

  type Bytes = seq<byte>

  /** A Go string is a sequence of bytes. */
  type Key = Bytes
}

/**
 Instants and durations. An instant is a number of nanoseconds since Go's zero `time.Time`,
 which is the instant 0 here; a duration is a signed 64-bit number of nanoseconds.
 */
module Clock {
  type Time = int

  const SECOND: int := 1_000_000_000
  const TWO_63: int := 0x8000_0000_0000_0000

  /** 1970-01-01 as nanoseconds after the zero time. */
  const UNIX_EPOCH: Time := 62_135_596_800 * SECOND

  type Duration = d: int | -TWO_63 <= d < TWO_63

  /** `time.Time.Unix`: whole seconds since 1970, rounded down. */
  function Unix(t: Time): int {
    (t - UNIX_EPOCH) / SECOND
  }

  /** More than 2^63 nanoseconds (some 292 years) after the zero time: adding no duration can reach the zero time. */
  predicate Modern(now: Time) {
    now > TWO_63
  }

  function FromUnix(seconds: int): Time {
    UNIX_EPOCH + seconds * SECOND
  }

  /** `int64(d.Seconds())`: truncation toward zero. */
  function TruncatedSeconds(d: Duration): int {
    var n: int := d;
    if n >= 0 then n / SECOND else -((0 - n) / SECOND)
  }

  /** An instant (or a duration) that falls on a whole second; the Unix epoch itself does. */
  predicate Whole(t: int) {
    t % SECOND == 0
  }

  lemma UnixRoundsDown(t: Time)
    ensures FromUnix(Unix(t)) <= t < FromUnix(Unix(t)) + SECOND
    ensures FromUnix(Unix(t)) == t <==> Whole(t)
    ensures Whole(FromUnix(Unix(t)))
  {}

}
