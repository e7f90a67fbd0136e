/** Login lockout per IP address: a failure counter that expires and a lock
    that expires, both kept in Redis. Times are in milliseconds and each login
    request is atomic. */
module LoginLockout {
  import opened Basics

  const LOCKOUT_MAX_ATTEMPTS := 20
  const LOCKOUT_WINDOW_SEC := 900
  const LOCKOUT_DURATION_SEC := 1800
  const WINDOW := LOCKOUT_WINDOW_SEC * 1000
  const DURATION := LOCKOUT_DURATION_SEC * 1000

  // ---------------------------------------------------------------- Redis

  datatype Entry = Entry(value: nat, expiresAt: Option<int>)
  type Redis = map<string, Entry>

  /** A key exists until its expiry time. */
  predicate Alive(r: Redis, key: string, now: int)
  {
    key in r && (r[key].expiresAt.Some? ==> now < r[key].expiresAt.value)
  }

  function Incr(r: Redis, key: string, now: int): Redis
  {
    r[key := if Alive(r, key, now) then Entry(r[key].value + 1, r[key].expiresAt) else Entry(1, None)]
  }

  function Expire(r: Redis, key: string, at: int): Redis
    requires key in r
  {
    r[key := Entry(r[key].value, Some(at))]
  }

  function SetEx(r: Redis, key: string, value: nat, at: int): Redis
  {
    r[key := Entry(value, Some(at))]
  }

  function Del(r: Redis, key: string): Redis
  {
    r - {key}
  }

  function LockKey(ip: string): string { "auth:lock:" + ip }
  function FailKey(ip: string): string { "auth:fail:" + ip }

  /** Keys of different addresses, and the two keys of one address, never clash. */
  lemma KeysApart(ip: string, ip': string)
    ensures LockKey(ip) != FailKey(ip')
    ensures ip != ip' ==> LockKey(ip) != LockKey(ip') && FailKey(ip) != FailKey(ip')
  {
    assert LockKey(ip)[5] == 'l' && FailKey(ip')[5] == 'f';
    assert LockKey(ip)[10..] == ip && LockKey(ip')[10..] == ip';
    assert FailKey(ip)[10..] == ip && FailKey(ip')[10..] == ip';
  }

  // ---------------------------------------------------------------- one request

  datatype Flow = Admin | Catalog

  /** What the rest of a login finds out: whether the credentials verify,
      whether the user may enter the catalog and whether a session is issued. */
  datatype Attempt = Attempt(ip: Option<string>, flow: Flow, credentials: bool, access: bool, session: bool, at: int)

  datatype Response = TooManyRequests | Unauthorized | Forbidden | ServerError | LoggedIn

  /** A missing or empty address is not tracked. */
  predicate From(a: Attempt, ip: string)
  {
    a.ip == Some(ip) && ip != ""
  }

  function Outcome(a: Attempt): Response
  {
    if !a.credentials then Unauthorized
    else if a.flow.Catalog? && !a.access then Forbidden
    else if !a.session then ServerError
    else LoggedIn
  }

  function Respond(r: Redis, a: Attempt): Response
  {
    if a.ip.Some? && From(a, a.ip.value) && Alive(r, LockKey(a.ip.value), a.at) then TooManyRequests else Outcome(a)
  }

  function RecordFailure(r: Redis, ip: string, now: int): Redis
  {
    var counted := Incr(r, FailKey(ip), now);
    var count := counted[FailKey(ip)].value;
    var timed := if count == 1 then Expire(counted, FailKey(ip), now + WINDOW) else counted;
    if count >= LOCKOUT_MAX_ATTEMPTS then Del(SetEx(timed, LockKey(ip), 1, now + DURATION), FailKey(ip)) else timed
  }

  function Step(r: Redis, a: Attempt): Redis
  {
    if a.ip.None? || a.ip.value == "" then r
    else match Respond(r, a)
      case Unauthorized => RecordFailure(r, a.ip.value, a.at)
      case LoggedIn => Del(r, FailKey(a.ip.value))
      case _ => r
  }

  /** The service over its Redis connection. */
  class AuthService {
    var redis: Redis

    constructor ()
      ensures redis == map[]
    {
      redis := map[];
    }

    method CheckLockout(ip: Option<string>, now: int) returns (locked: bool)
      ensures locked <==> ip.Some? && ip.value != "" && Alive(redis, LockKey(ip.value), now)
    {
      if ip.None? || ip.value == "" {
        return false;
      }
      locked := Alive(redis, LockKey(ip.value), now);
    }

    method RecordFailedAttempt(ip: Option<string>, now: int)
      modifies this
      ensures redis == if ip.Some? && ip.value != "" then RecordFailure(old(redis), ip.value, now) else old(redis)
    {
      if ip.None? || ip.value == "" {
        return;
      }
      var key := FailKey(ip.value);
      redis := Incr(redis, key, now);
      var count := redis[key].value;
      if count == 1 {
        redis := Expire(redis, key, now + WINDOW);
      }
      if count >= LOCKOUT_MAX_ATTEMPTS {
        redis := SetEx(redis, LockKey(ip.value), 1, now + DURATION);
        redis := Del(redis, key);
      }
    }

    method ClearFailedAttempts(ip: Option<string>)
      modifies this
      ensures redis == if ip.Some? && ip.value != "" then Del(old(redis), FailKey(ip.value)) else old(redis)
    {
      if ip.None? || ip.value == "" {
        return;
      }
      redis := Del(redis, FailKey(ip.value));
    }

    /** Both login flows: the lock is checked before anything else, failed
        credentials count, a login clears the counter, other failures do neither. */
    method Login(a: Attempt) returns (response: Response)
      modifies this
      ensures response == Respond(old(redis), a) && redis == Step(old(redis), a)
    {
      var locked := CheckLockout(a.ip, a.at);
      if locked {
        return TooManyRequests;
      }
      if !a.credentials {
        RecordFailedAttempt(a.ip, a.at);
        return Unauthorized;
      }
      if a.flow.Catalog? && !a.access {
        return Forbidden;
      }
      if !a.session {
        return ServerError;
      }
      ClearFailedAttempts(a.ip);
      response := LoggedIn;
    }
  }

  // ---------------------------------------------------------------- runs

  ghost predicate Timed(attempts: seq<Attempt>, from: int)
  {
    && (forall i :: 0 <= i < |attempts| ==> from <= attempts[i].at)
    && (forall i, j :: 0 <= i < j < |attempts| ==> attempts[i].at <= attempts[j].at)
  }

  function Run(r: Redis, attempts: seq<Attempt>): Redis
    decreases |attempts|
  {
    if attempts == [] then r else Run(Step(r, attempts[0]), attempts[1..])
  }

  predicate Counts(r: Redis, a: Attempt, ip: string, lo: int, hi: int)
  {
    From(a, ip) && lo <= a.at <= hi && Respond(r, a) == Unauthorized
  }

  /** Failed logins from `ip` between lo and hi that were not turned away by the lock. */
  function Counted(r: Redis, attempts: seq<Attempt>, ip: string, lo: int, hi: int): nat
    decreases |attempts|
  {
    if attempts == [] then 0
    else (if Counts(r, attempts[0], ip, lo, hi) then 1 else 0) + Counted(Step(r, attempts[0]), attempts[1..], ip, lo, hi)
  }

  ghost predicate NoLogin(r: Redis, attempts: seq<Attempt>, ip: string, lo: int, hi: int)
    decreases |attempts|
  {
    attempts == [] ||
    (&& (From(attempts[0], ip) && lo <= attempts[0].at <= hi ==> Respond(r, attempts[0]) != LoggedIn)
     && NoLogin(Step(r, attempts[0]), attempts[1..], ip, lo, hi))
  }

  /** The keys of one address at time `now`: a running counter is between 1 and
      19 and expires within the window, and nothing counts under a lock. */
  ghost predicate Consistent(r: Redis, ip: string, now: int)
  {
    && (Alive(r, FailKey(ip), now) ==>
          && r[FailKey(ip)].expiresAt.Some? && r[FailKey(ip)].expiresAt.value <= now + WINDOW
          && 1 <= r[FailKey(ip)].value < LOCKOUT_MAX_ATTEMPTS)
    && (Alive(r, LockKey(ip), now) ==> r[LockKey(ip)].expiresAt.Some? && !Alive(r, FailKey(ip), now))
  }

  lemma OthersDoNotInterfere(r: Redis, a: Attempt, ip: string)
    requires !From(a, ip) && ip != ""
    ensures FailKey(ip) in Step(r, a) <==> FailKey(ip) in r
    ensures LockKey(ip) in Step(r, a) <==> LockKey(ip) in r
    ensures FailKey(ip) in r ==> Step(r, a)[FailKey(ip)] == r[FailKey(ip)]
    ensures LockKey(ip) in r ==> Step(r, a)[LockKey(ip)] == r[LockKey(ip)]
  {
    if a.ip.Some? {
      KeysApart(ip, a.ip.value);
      KeysApart(a.ip.value, ip);
    }
  }

  lemma StepStaysConsistent(r: Redis, a: Attempt, ip: string)
    requires Consistent(r, ip, a.at) && ip != ""
    ensures Consistent(Step(r, a), ip, a.at)
  {
    KeysApart(ip, ip);
    if !From(a, ip) {
      OthersDoNotInterfere(r, a, ip);
    }
  }

  // ---------------------------------------------------------------- the bound

  /** How many more failures can still count up to hi, seen at time `at`. */
  ghost function Left(r: Redis, ip: string, at: int, hi: int): int
    requires Consistent(r, ip, at)
  {
    if at > hi then 0
    else if Alive(r, LockKey(ip), at) then
      if r[LockKey(ip)].expiresAt.value > hi then 0 else 20
    else if Alive(r, FailKey(ip), at) then
      if r[FailKey(ip)].expiresAt.value > hi then 20 - r[FailKey(ip)].value else 39 - r[FailKey(ip)].value
    else if at + WINDOW > hi then 20 else 39
  }

  lemma AttemptSpendsBudget(r: Redis, a: Attempt, ip: string, lo: int, hi: int)
    requires Consistent(r, ip, a.at) && Consistent(Step(r, a), ip, a.at) && ip != ""
    requires lo <= a.at && hi <= lo + WINDOW
    requires From(a, ip) && a.at <= hi ==> Respond(r, a) != LoggedIn
    ensures (if Counts(r, a, ip, lo, hi) then 1 else 0) + Left(Step(r, a), ip, a.at, hi) <= Left(r, ip, a.at, hi)
  {
    KeysApart(ip, ip);
    if !From(a, ip) {
      OthersDoNotInterfere(r, a, ip);
    }
  }

  lemma {:induction false} CountedFitsBudget(r: Redis, attempts: seq<Attempt>, ip: string, now: int, lo: int, hi: int)
    requires Consistent(r, ip, now) && ip != "" && Timed(attempts, now)
    requires lo <= now && hi <= lo + WINDOW
    requires NoLogin(r, attempts, ip, lo, hi)
    ensures Counted(r, attempts, ip, lo, hi) <= Left(r, ip, now, hi)
    decreases |attempts|
  {
    if attempts != [] {
      var a := attempts[0];
      StepStaysConsistent(r, a, ip);
      AttemptSpendsBudget(r, a, ip, lo, hi);
      CountedFitsBudget(Step(r, a), attempts[1..], ip, a.at, lo, hi);
    }
  }

  /** Before the span starts nothing counts; the state only stays consistent. */
  lemma {:induction false} CountedInSpan(r: Redis, attempts: seq<Attempt>, ip: string, now: int, lo: int, hi: int)
    requires Consistent(r, ip, now) && ip != "" && Timed(attempts, now)
    requires now <= lo && lo <= hi <= lo + WINDOW
    requires NoLogin(r, attempts, ip, lo, hi)
    ensures Counted(r, attempts, ip, lo, hi) <= if hi == lo + WINDOW then 39 else 38
    decreases |attempts|
  {
    if attempts != [] {
      var a := attempts[0];
      if a.at < lo {
        StepStaysConsistent(r, a, ip);
        CountedInSpan(Step(r, a), attempts[1..], ip, a.at, lo, hi);
      } else {
        assert Timed(attempts, lo);
        CountedFitsBudget(r, attempts, ip, lo, lo, hi);
      }
    }
  }

  /** In every timed run, a span of 900 seconds (both ends included) without a
      successful login from an address holds at most 39 failed logins from it,
      and any shorter span at most 38. */
  lemma FailedLoginsAreBounded(attempts: seq<Attempt>, ip: string, start: int, lo: int, hi: int)
    requires ip != "" && Timed(attempts, start) && start <= lo <= hi <= lo + 900_000
    requires NoLogin(map[], attempts, ip, lo, hi)
    ensures Counted(map[], attempts, ip, lo, hi) <= 39
    ensures hi < lo + 900_000 ==> Counted(map[], attempts, ip, lo, hi) <= 38
  {
    CountedInSpan(map[], attempts, ip, start, lo, hi);
  }

  // ---------------------------------------------------------------- the bound is reached

  function Failure(ip: string, at: int): Attempt
  {
    Attempt(Some(ip), Admin, false, true, true, at)
  }

  function Failures(ip: string, at: int, n: nat): seq<Attempt>
  {
    seq(n, _ => Failure(ip, at))
  }

  /** The address is not locked and its running counter, if any, stands at c. */
  ghost predicate CounterAt(r: Redis, ip: string, now: int, c: nat, expiresAt: int)
  {
    && !Alive(r, LockKey(ip), now)
    && (c == 0 ==> !Alive(r, FailKey(ip), now) && expiresAt == now + WINDOW)
    && (c > 0 ==> FailKey(ip) in r && r[FailKey(ip)] == Entry(c, Some(expiresAt)) && now < expiresAt)
  }

  lemma OneFailure(r: Redis, ip: string, at: int, c: nat, expiresAt: int)
    requires ip != "" && CounterAt(r, ip, at, c, expiresAt) && c < LOCKOUT_MAX_ATTEMPTS
    ensures Respond(r, Failure(ip, at)) == Unauthorized
    ensures c + 1 < LOCKOUT_MAX_ATTEMPTS ==> CounterAt(Step(r, Failure(ip, at)), ip, at, c + 1, expiresAt)
    ensures c + 1 == LOCKOUT_MAX_ATTEMPTS ==>
      var d := Step(r, Failure(ip, at));
      LockKey(ip) in d && d[LockKey(ip)].expiresAt == Some(at + DURATION)
  {
    KeysApart(ip, ip);
  }

  lemma {:induction false} FailuresCount(r: Redis, ip: string, at: int, c: nat, expiresAt: int, n: nat, lo: int, hi: int)
    requires ip != "" && CounterAt(r, ip, at, c, expiresAt) && c + n <= LOCKOUT_MAX_ATTEMPTS && lo <= at <= hi
    ensures Counted(r, Failures(ip, at, n), ip, lo, hi) == n
    ensures c + n < LOCKOUT_MAX_ATTEMPTS ==> CounterAt(Run(r, Failures(ip, at, n)), ip, at, c + n, expiresAt)
    decreases n
  {
    if n > 0 {
      OneFailure(r, ip, at, c, expiresAt);
      var fs := Failures(ip, at, n);
      assert fs[0] == Failure(ip, at) && fs[1..] == Failures(ip, at, n - 1);
      if c + 1 < LOCKOUT_MAX_ATTEMPTS {
        FailuresCount(Step(r, Failure(ip, at)), ip, at, c + 1, expiresAt, n - 1, lo, hi);
      } else {
        assert fs[1..] == [];
      }
    }
  }

  lemma {:induction false} CountedAppends(r: Redis, xs: seq<Attempt>, ys: seq<Attempt>, ip: string, lo: int, hi: int)
    ensures Counted(r, xs + ys, ip, lo, hi) == Counted(r, xs, ip, lo, hi) + Counted(Run(r, xs), ys, ip, lo, hi)
    decreases |xs|
  {
    if xs == [] {
      assert xs + ys == ys;
    } else {
      assert (xs + ys)[0] == xs[0] && (xs + ys)[1..] == xs[1..] + ys;
      CountedAppends(Step(r, xs[0]), xs[1..], ys, ip, lo, hi);
    }
  }

  /** Nineteen failures, then twenty at the instant their counter expires. */
  lemma BoundIsReached(ip: string)
    requires ip != ""
    ensures var attempts := Failures(ip, 0, 19) + Failures(ip, 900_000, 20);
            && Timed(attempts, 0) && NoLogin(map[], attempts, ip, 0, 900_000)
            && Counted(map[], attempts, ip, 0, 900_000) == 39
  {
    var r: Redis := map[];
    FailuresCount(r, ip, 0, 0, WINDOW, 19, 0, WINDOW);
    var mid := Run(r, Failures(ip, 0, 19));
    assert mid[FailKey(ip)] == Entry(19, Some(WINDOW));
    assert !Alive(mid, LockKey(ip), WINDOW) by {
      NoLockYet(r, ip, 0, 0, WINDOW, 19);
    }
    FailuresCount(mid, ip, WINDOW, 0, WINDOW + WINDOW, 20, 0, WINDOW);
    CountedAppends(r, Failures(ip, 0, 19), Failures(ip, WINDOW, 20), ip, 0, WINDOW);
    FailuresNeverLogIn(r, Failures(ip, 0, 19) + Failures(ip, WINDOW, 20), ip, 0, WINDOW);
  }

  lemma {:induction false} FailuresNeverLogIn(r: Redis, attempts: seq<Attempt>, ip: string, lo: int, hi: int)
    requires forall i :: 0 <= i < |attempts| ==> !attempts[i].credentials
    ensures NoLogin(r, attempts, ip, lo, hi)
    decreases |attempts|
  {
    if attempts != [] {
      FailuresNeverLogIn(Step(r, attempts[0]), attempts[1..], ip, lo, hi);
    }
  }

  lemma {:induction false} NoLockYet(r: Redis, ip: string, at: int, c: nat, expiresAt: int, n: nat)
    requires ip != "" && CounterAt(r, ip, at, c, expiresAt) && c + n < LOCKOUT_MAX_ATTEMPTS && LockKey(ip) !in r
    ensures LockKey(ip) !in Run(r, Failures(ip, at, n))
    decreases n
  {
    if n > 0 {
      OneFailure(r, ip, at, c, expiresAt);
      KeysApart(ip, ip);
      var fs := Failures(ip, at, n);
      assert fs[0] == Failure(ip, at) && fs[1..] == Failures(ip, at, n - 1);
      NoLockYet(Step(r, Failure(ip, at)), ip, at, c + 1, expiresAt, n - 1);
    }
  }

  // ---------------------------------------------------------------- the lock

  ghost predicate LockedUntil(r: Redis, ip: string, until: int)
  {
    LockKey(ip) in r && r[LockKey(ip)].expiresAt == Some(until)
  }

  lemma {:induction false} LockStays(r: Redis, attempts: seq<Attempt>, ip: string, until: int)
    requires ip != "" && LockedUntil(r, ip, until)
    requires forall j :: 0 <= j < |attempts| ==> attempts[j].at < until
    ensures LockedUntil(Run(r, attempts), ip, until)
    decreases |attempts|
  {
    if attempts != [] {
      var a := attempts[0];
      if !From(a, ip) {
        OthersDoNotInterfere(r, a, ip);
      }
      LockStays(Step(r, a), attempts[1..], ip, until);
    }
  }

  /** The counter of a first failure lives for 900 seconds. */
  lemma CounterLives(r: Redis, a: Attempt, ip: string)
    requires From(a, ip) && !a.credentials && !Alive(r, LockKey(ip), a.at) && !Alive(r, FailKey(ip), a.at)
    ensures var d := Step(r, a);
            && Alive(d, FailKey(ip), a.at + 899_999) && !Alive(d, FailKey(ip), a.at + 900_000)
            && d[FailKey(ip)].value == 1 && !Alive(d, LockKey(ip), a.at)
  {
    KeysApart(ip, ip);
  }

  /** A twentieth failure within a running counter locks the address for 1800
      seconds: whatever else arrives meanwhile, every attempt of the address up
      to the last millisecond is refused, and the first one after is answered on
      its merits. */
  lemma LockLives(r: Redis, a: Attempt, ip: string, attempts: seq<Attempt>, b: Attempt)
    requires From(a, ip) && !a.credentials && !Alive(r, LockKey(ip), a.at)
    requires Alive(r, FailKey(ip), a.at) && r[FailKey(ip)].value == 19
    requires From(b, ip) && forall j :: 0 <= j < |attempts| ==> attempts[j].at <= a.at + 1_799_999
    ensures b.at <= a.at + 1_799_999 ==> Respond(Run(Step(r, a), attempts), b) == TooManyRequests
    ensures b.at >= a.at + 1_800_000 ==> Respond(Run(Step(r, a), attempts), b) == Outcome(b)
  {
    KeysApart(ip, ip);
    LockStays(Step(r, a), attempts, ip, a.at + 1_800_000);
  }

  /** Logins without an address are answered on their merits and not tracked. */
  lemma UntrackedLogins(r: Redis, a: Attempt)
    requires a.ip == None || a.ip == Some("")
    ensures Respond(r, a) == Outcome(a) && Step(r, a) == r
  {
  }

  /** An address that is not locked is told what its login comes to: an admin
      login never fails for want of catalog access, a catalog login does. */
  lemma UnlockedAnswers(r: Redis, a: Attempt, ip: string)
    requires From(a, ip) && !Alive(r, LockKey(ip), a.at)
    ensures Respond(r, a) == Unauthorized <==> !a.credentials
    ensures Respond(r, a) == Forbidden <==> a.credentials && a.flow == Catalog && !a.access
    ensures Respond(r, a) == LoggedIn <==> a.credentials && a.session && (a.flow == Admin || a.access)
    ensures Respond(r, a) != TooManyRequests
  {
  }

  /** Once locked, every attempt from the address before the lock expires is
      turned away, valid credentials or not, whatever other addresses do. */
  lemma {:induction false} LockHolds(r: Redis, attempts: seq<Attempt>, ip: string, until: int, i: nat)
    requires ip != "" && LockedUntil(r, ip, until)
    requires forall j :: 0 <= j < |attempts| ==> attempts[j].at < until
    requires i < |attempts| && From(attempts[i], ip)
    ensures Respond(Run(r, attempts[..i]), attempts[i]) == TooManyRequests
    decreases i
  {
    if i == 0 {
      assert attempts[..0] == [];
    } else {
      var a := attempts[0];
      if !From(a, ip) {
        OthersDoNotInterfere(r, a, ip);
      }
      assert attempts[..i][1..] == attempts[1..][..i - 1];
      LockHolds(Step(r, a), attempts[1..], ip, until, i - 1);
    }
  }
}
