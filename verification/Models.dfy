/** The data of `src/models.rs` and the validated configuration of `src/env.rs`. */
module Models {
  import opened Wrappers

  /** Wall-clock instants and durations, in nanoseconds (chrono's resolution). */
  type Time = int

  const SECOND: Time := 1_000_000_000
  const MINUTE: Time := 60 * SECOND
  const HOUR: Time := 3600 * SECOND

  const U8_MAX := 0xFF
  const U64_MAX := 0xFFFF_FFFF_FFFF_FFFF

  type u8 = x: int | 0 <= x <= U8_MAX
  type u64 = x: int | 0 <= x <= U64_MAX

  /** Hexadecimal SHA-256 digests: the rate-limit bucket and the candidate. */
  type IdHash = string
  type Tag = string

  datatype CandidateState = Pending | Committed

  /** One identifier's rate-limit entry (`RateLimitInfo`). */
  datatype Window = Window(
    startedAt: Time,
    lastCandidateAt: Time,
    lastRequestAt: Time,
    candidates: map<Tag, CandidateState>,
    failed: u8,
    totalRequests: u64)
  {
    /** The source converts the length to `u8` and panics when it does not fit. */
    predicate CountFits() {
      |candidates| <= U8_MAX
    }

    function Count(): u8
      requires CountFits()
    {
      |candidates|
    }
  }

  type Windows = map<IdHash, Window>

  function NewWindow(now: Time): Window {
    Window(now, now, now, map[], 0, 0)
  }

  datatype AttemptStatus = AttemptStatus(
    totalAttempts: u8,
    failedAttempts: u8,
    remainingAttempts: u8,
    totalRequests: u64,
    windowStartedAt: Time,
    previousAttemptAt: Option<Time>,
    resetsAt: Time)

  /** A database row. */
  datatype Secret = Secret(id: Tag, createdAt: string, encryptedSecret: string)

  /** What a lookup job hands to the finalizer: a row, no row, or any error. */
  datatype LookupResult = Found(secret: Secret) | Absent | Failed

  const MAX_IDENTIFIERS := 10_000_000
  const MAX_PERMITS := 1024
  const MAX_COOLDOWN_MINUTES := 525_600

  /** The route timeout bounds how long a request may sit between reading the
      clock and holding the map lock. */
  const ROUTE_TIMEOUT: Time := 30 * SECOND

  /** `skew` is the model's bound on that delay; zero means that requests take
      the lock in the order of their timestamps. */
  datatype Config = Config(
    maxAttempts: u8,
    cooldownMinutes: nat,
    maxIdentifiers: nat,
    permits: nat,
    skew: Time)
  {
    predicate Valid() {
      && 1 <= maxAttempts
      && 1 <= cooldownMinutes <= MAX_COOLDOWN_MINUTES
      && 1 <= maxIdentifiers <= MAX_IDENTIFIERS
      && 1 <= permits <= MAX_PERMITS
      && 0 <= skew <= ROUTE_TIMEOUT
    }

    function Cooldown(): Time {
      cooldownMinutes * MINUTE
    }
  }
}
