/** The login rate limiter: per client address, the number of failed logins
    in the current window and, once there have been five, the instant until
    which further attempts are refused.

    Instants are integers counting nanoseconds on the monotonic clock; the
    caller passes the current instant `now` to every operation that reads
    the clock. The limiter's map is a value, and each operation returns the
    new map instead of updating it under a lock. */
module RateLimiter {
  import opened Wrappers

  /** A client's address, as its bytes (4 for IPv4, 16 for IPv6). */
  datatype IpAddr = IpAddr(octets: seq<bv8>)

  const Second: nat := 1_000_000_000

  /** `MAX_ATTEMPTS`, `BLOCK_DURATION_SECS` and `ATTEMPT_WINDOW_SECS`. */
  const MaxAttempts: nat := 5
  const BlockDuration: nat := 300 * Second
  const AttemptWindow: nat := 60 * Second

  /** `CLEANUP_THRESHOLD` of `maybe_cleanup`. */
  const CleanupThreshold: nat := 1000

  /** `LoginAttempt`: failures counted since `firstAttempt`, and the end of
      the block once one has been imposed. */
  datatype LoginAttempt = LoginAttempt(attempts: nat, firstAttempt: int, blockedUntil: Option<int>)

  type Limiter = map<IpAddr, LoginAttempt>

  /** `Instant::duration_since`, which saturates at zero when `earlier` is
      in fact later. */
  function DurationSince(later: int, earlier: int): (d: nat)
    ensures later >= earlier ==> later == earlier + d
    ensures later <= earlier ==> d == 0
  {
    if later >= earlier then later - earlier else 0
  }

  /** `Duration::as_secs`: whole seconds, rounded down. */
  function AsSecs(d: nat): (s: nat)
    ensures s * Second <= d < (s + 1) * Second
  {
    d / Second
  }

  /** `RateLimiter::new`. */
  function New(): (m: Limiter)
    ensures |m| == 0
  {
    map[]
  }

  /** `LoginAttempt::default`, created at instant `now`. */
  function Fresh(now: int): LoginAttempt {
    LoginAttempt(0, now, None)
  }

  // ---------------------------------------------------------------------
  // Queries
  // ---------------------------------------------------------------------

  /** `is_blocked`. */
  predicate IsBlocked(m: Limiter, ip: IpAddr, now: int) {
    ip in m && m[ip].blockedUntil.Some? && now < m[ip].blockedUntil.value
  }

  /** `get_block_remaining`: the whole seconds left while blocked. */
  function BlockRemaining(m: Limiter, ip: IpAddr, now: int): (r: Option<nat>)
    ensures r.Some? <==> IsBlocked(m, ip, now)
    ensures r.Some? ==> r.value * Second <= m[ip].blockedUntil.value - now < (r.value + 1) * Second
  {
    if ip in m then
      match m[ip].blockedUntil
      case Some(until) =>
        if now < until then Some(AsSecs(until - now)) else None
      case None => None
    else None
  }

  /** `check_block_status`: both answers under one lock. */
  function CheckBlockStatus(m: Limiter, ip: IpAddr, now: int): (r: (bool, Option<nat>))
    ensures r == (IsBlocked(m, ip, now), BlockRemaining(m, ip, now))
  {
    if ip !in m then (false, None)
    else
      var attempt := m[ip];
      if attempt.blockedUntil.Some? && now < attempt.blockedUntil.value then
        (true, Some((attempt.blockedUntil.value - now) / Second))
      else (false, None)
  }

  /** `get_remaining_attempts`: 5 for an unknown address, 0 once a block
      has been imposed (even an expired one), and otherwise the failures
      left, saturating at 0. */
  function RemainingAttempts(m: Limiter, ip: IpAddr): (r: nat)
    ensures r <= MaxAttempts
    ensures ip !in m ==> r == MaxAttempts
    ensures ip in m && m[ip].blockedUntil.Some? ==> r == 0
    ensures ip in m && m[ip].blockedUntil.None? ==> (r == 0 <==> m[ip].attempts >= MaxAttempts)
    ensures ip in m && m[ip].blockedUntil.None? && r > 0 ==> r + m[ip].attempts == MaxAttempts
  {
    if ip !in m then MaxAttempts
    else if m[ip].blockedUntil.Some? then 0
    else if m[ip].attempts >= MaxAttempts then 0
    else MaxAttempts - m[ip].attempts
  }

  // ---------------------------------------------------------------------
  // Updates
  // ---------------------------------------------------------------------

  /** `record_failed_attempt`: the new map, and whether the address is now
      blocked. */
  function RecordFailedAttempt(m: Limiter, ip: IpAddr, now: int): (r: (Limiter, bool))
    ensures ip in r.0 && r.0.Keys == m.Keys + {ip}
    ensures forall other :: other in m && other != ip ==> other in r.0 && r.0[other] == m[other]
    ensures IsBlocked(m, ip, now) ==> r == (m, true)
    ensures !IsBlocked(m, ip, now) ==> (r.1 <==> r.0[ip].attempts >= MaxAttempts)
    ensures !IsBlocked(m, ip, now) && r.1 ==> r.0[ip].blockedUntil == Some(now + BlockDuration)
    ensures !IsBlocked(m, ip, now) && !r.1 ==> r.0[ip].blockedUntil.None?
    // An expired block restarts the count; an expired window restarts it at
    // this failure; otherwise this failure is added to the count.
    ensures !IsBlocked(m, ip, now) ==>
      var prev := if ip in m then m[ip] else Fresh(now);
      var base := if prev.blockedUntil.Some? then 0 else prev.attempts;
      if DurationSince(now, prev.firstAttempt) > AttemptWindow
      then r.0[ip].attempts == 1 && r.0[ip].firstAttempt == now
      else r.0[ip].attempts == base + 1 && r.0[ip].firstAttempt == prev.firstAttempt
  {
    var attempt := if ip in m then m[ip] else Fresh(now);
    if attempt.blockedUntil.Some? && now < attempt.blockedUntil.value then
      (m, true)
    else
      var unblocked := if attempt.blockedUntil.Some? then attempt.(attempts := 0, blockedUntil := None) else attempt;
      var counted :=
        if DurationSince(now, unblocked.firstAttempt) > AttemptWindow
        then unblocked.(attempts := 1, firstAttempt := now)
        else unblocked.(attempts := unblocked.attempts + 1);
      if counted.attempts >= MaxAttempts then
        (m[ip := counted.(blockedUntil := Some(now + BlockDuration))], true)
      else (m[ip := counted], false)
  }

  /** `record_success`: forget the address. */
  function RecordSuccess(m: Limiter, ip: IpAddr): (r: Limiter)
    ensures ip !in r && r.Keys == m.Keys - {ip}
    ensures forall other :: other in r ==> r[other] == m[other]
  {
    m - {ip}
  }

  /** The `retain` condition of `cleanup_old_entries`: an entry with a block
      stays while the block lasts; one without stays while its window
      started less than twice the block duration ago. */
  predicate Retained(attempt: LoginAttempt, now: int) {
    match attempt.blockedUntil
    case Some(until) => now < until
    case None => DurationSince(now, attempt.firstAttempt) < 2 * BlockDuration
  }

  /** `cleanup_old_entries`. */
  function CleanupOldEntries(m: Limiter, now: int): (r: Limiter)
    ensures r.Keys <= m.Keys
    ensures forall ip :: ip in r ==> r[ip] == m[ip]
    ensures forall ip :: ip in m ==> (ip in r <==> Retained(m[ip], now))
  {
    map ip | ip in m && Retained(m[ip], now) :: m[ip]
  }

  /** `maybe_cleanup`: clean up only when more than 1000 addresses are
      tracked; the flag says whether it did. */
  function MaybeCleanup(m: Limiter, now: int): (r: (Limiter, bool))
    ensures r.1 <==> |m| > CleanupThreshold
    ensures r.1 ==> r.0 == CleanupOldEntries(m, now)
    ensures !r.1 ==> r.0 == m
  {
    if |m| > CleanupThreshold then (CleanupOldEntries(m, now), true) else (m, false)
  }

  // ---------------------------------------------------------------------
  // Invariant
  // ---------------------------------------------------------------------

  /** Every tracked address has at most five failures, and a block is
      recorded exactly when the fifth failure has been counted. In
      particular the source's `u32` counter never comes near overflowing. */
  predicate WellFormed(m: Limiter) {
    forall ip :: ip in m ==>
      && m[ip].attempts <= MaxAttempts
      && (m[ip].blockedUntil.None? ==> m[ip].attempts < MaxAttempts)
      && (m[ip].blockedUntil.Some? ==> m[ip].attempts == MaxAttempts)
  }

  lemma NewWellFormed()
    ensures WellFormed(New())
  {
  }

  /** Every update keeps the invariant. */
  lemma RecordFailedAttemptWellFormed(m: Limiter, ip: IpAddr, now: int)
    requires WellFormed(m)
    ensures WellFormed(RecordFailedAttempt(m, ip, now).0)
  {
    var r := RecordFailedAttempt(m, ip, now).0;
    forall other | other in r
      ensures r[other].attempts <= MaxAttempts
      ensures r[other].blockedUntil.None? ==> r[other].attempts < MaxAttempts
      ensures r[other].blockedUntil.Some? ==> r[other].attempts == MaxAttempts
    {
      if other != ip {
        assert r[other] == m[other];
      }
    }
  }

  lemma RecordSuccessWellFormed(m: Limiter, ip: IpAddr)
    requires WellFormed(m)
    ensures WellFormed(RecordSuccess(m, ip))
  {
  }

  lemma CleanupWellFormed(m: Limiter, now: int)
    requires WellFormed(m)
    ensures WellFormed(CleanupOldEntries(m, now))
    ensures WellFormed(MaybeCleanup(m, now).0)
  {
  }

  /** On a well-formed limiter, no attempts remain exactly when a block has
      been imposed on a tracked address. */
  lemma NoAttemptsLeftMeansBlockImposed(m: Limiter, ip: IpAddr)
    requires WellFormed(m)
    ensures RemainingAttempts(m, ip) == 0 <==> ip in m && m[ip].blockedUntil.Some?
  {
  }

  // ---------------------------------------------------------------------
  // Properties
  // ---------------------------------------------------------------------

  /** Cleanup never lifts a block: an address blocked before is still
      blocked after, with the same remaining time. */
  lemma CleanupKeepsBlocks(m: Limiter, ip: IpAddr, now: int)
    ensures IsBlocked(CleanupOldEntries(m, now), ip, now) <==> IsBlocked(m, ip, now)
    ensures BlockRemaining(CleanupOldEntries(m, now), ip, now) == BlockRemaining(m, ip, now)
  {
  }

  /** Cleaning up twice at the same instant removes nothing more. */
  lemma CleanupIdempotent(m: Limiter, now: int)
    ensures CleanupOldEntries(CleanupOldEntries(m, now), now) == CleanupOldEntries(m, now)
  {
    var once := CleanupOldEntries(m, now);
    assert CleanupOldEntries(once, now).Keys == once.Keys;
  }

  /** A failure that blocks keeps the address blocked for the whole block
      duration, and `get_block_remaining` counts down from 300 seconds. */
  lemma BlockLastsFiveMinutes(m: Limiter, ip: IpAddr, now: int, later: int)
    requires !IsBlocked(m, ip, now) && RecordFailedAttempt(m, ip, now).1
    requires now <= later
    ensures var after := RecordFailedAttempt(m, ip, now).0;
      IsBlocked(after, ip, later) <==> later < now + BlockDuration
    ensures BlockRemaining(RecordFailedAttempt(m, ip, now).0, ip, now) == Some(300)
  {
  }

  /** Once a block has run out, the next failure starts the count again
      from one: the address is not blocked by it and has four attempts
      left. */
  lemma ExpiredBlockRestartsCount(m: Limiter, ip: IpAddr, now: int)
    requires ip in m && m[ip].blockedUntil.Some? && m[ip].blockedUntil.value <= now
    ensures !IsBlocked(m, ip, now)
    ensures var r := RecordFailedAttempt(m, ip, now);
      !r.1 && r.0[ip].attempts == 1 && RemainingAttempts(r.0, ip) == MaxAttempts - 1
  {
  }

  /** A failure more than one window after the first counted one opens a new
      window at this instant, whatever had been counted before. */
  lemma LateFailureOpensWindow(m: Limiter, ip: IpAddr, now: int)
    requires ip in m && m[ip].blockedUntil.None? && now > m[ip].firstAttempt + AttemptWindow
    ensures var r := RecordFailedAttempt(m, ip, now);
      !r.1 && r.0[ip] == LoginAttempt(1, now, None)
  {
  }

  /** A success forgets the address completely: it is no longer blocked and
      has all five attempts again, while every other address keeps its
      state. */
  lemma SuccessResets(m: Limiter, ip: IpAddr, other: IpAddr, now: int)
    ensures !IsBlocked(RecordSuccess(m, ip), ip, now)
    ensures RemainingAttempts(RecordSuccess(m, ip), ip) == MaxAttempts
    ensures other != ip ==>
      IsBlocked(RecordSuccess(m, ip), other, now) == IsBlocked(m, other, now)
      && RemainingAttempts(RecordSuccess(m, ip), other) == RemainingAttempts(m, other)
  {
  }

  // ---------------------------------------------------------------------
  // Failure sequences
  // ---------------------------------------------------------------------

  /** Failed logins from `ip` at the instants `ts`, in order: the final map
      and each call's answer. */
  function FailAll(m: Limiter, ip: IpAddr, ts: seq<int>): (r: (Limiter, seq<bool>))
    ensures |r.1| == |ts|
  {
    if |ts| == 0 then (m, [])
    else
      var before := FailAll(m, ip, ts[..|ts| - 1]);
      var step := RecordFailedAttempt(before.0, ip, ts[|ts| - 1]);
      (step.0, before.1 + [step.1])
  }

  /** Instants that never go backwards and stay within one attempt window
      of the first. */
  predicate WithinWindow(ts: seq<int>) {
    && (forall i, j :: 0 <= i <= j < |ts| ==> ts[i] <= ts[j])
    && (forall i :: 0 <= i < |ts| ==> ts[i] - ts[0] <= AttemptWindow)
  }

  lemma WithinWindowPrefix(ts: seq<int>)
    requires |ts| > 0 && WithinWindow(ts)
    ensures WithinWindow(ts[..|ts| - 1])
  {
  }

  /** From an unknown address, up to four failures within one window are
      counted one by one from the first failure's instant, and none of
      them blocks. */
  lemma {:induction false} FailuresCounted(m: Limiter, ip: IpAddr, ts: seq<int>)
    requires ip !in m && 0 < |ts| < MaxAttempts && WithinWindow(ts)
    ensures var r := FailAll(m, ip, ts);
      && ip in r.0 && r.0[ip] == LoginAttempt(|ts|, ts[0], None)
      && forall i :: 0 <= i < |ts| ==> !r.1[i]
  {
    var n := |ts|;
    if n > 1 {
      var init := ts[..n - 1];
      WithinWindowPrefix(ts);
      FailuresCounted(m, ip, init);
      var before := FailAll(m, ip, init);
      assert before.0[ip] == LoginAttempt(n - 1, ts[0], None);
      assert DurationSince(ts[n - 1], ts[0]) <= AttemptWindow;
    }
  }

  /** The scenario of the source's unit test, with instants that may
      advance within one window: an unknown address is not blocked, its
      first four failures answer false, the fifth answers true, and the
      address is then blocked. */
  lemma {:induction false} FifthFailureBlocks(m: Limiter, ip: IpAddr, ts: seq<int>)
    requires ip !in m && |ts| == MaxAttempts && WithinWindow(ts)
    ensures !IsBlocked(m, ip, ts[0])
    ensures FailAll(m, ip, ts).1 == [false, false, false, false, true]
    ensures IsBlocked(FailAll(m, ip, ts).0, ip, ts[4])
  {
    var init := ts[..4];
    WithinWindowPrefix(ts);
    FailuresCounted(m, ip, init);
    var before := FailAll(m, ip, init);
    assert before.0[ip] == LoginAttempt(4, ts[0], None);
    assert DurationSince(ts[4], ts[0]) <= AttemptWindow;
  }

  /** The unit test itself: five failures at one instant on a new limiter. */
  lemma RateLimiterTest(ip: IpAddr, now: int)
    ensures !IsBlocked(New(), ip, now)
    ensures FailAll(New(), ip, [now, now, now, now, now]).1 == [false, false, false, false, true]
    ensures IsBlocked(FailAll(New(), ip, [now, now, now, now, now]).0, ip, now)
  {
    FifthFailureBlocks(New(), ip, [now, now, now, now, now]);
  }
}
