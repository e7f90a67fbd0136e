/** The other half of the lockout: nobody is locked out without cause, and a
    successful login starts over. */
module LockoutLaws {
  import opened Basics
  import opened LoginLockout

  // ---------------------------------------------------------------- what a request leaves

  /** Only failed credentials and successful logins touch Redis. */
  lemma OtherOutcomesChangeNothing(r: Redis, a: Attempt)
    requires Respond(r, a) != Unauthorized && Respond(r, a) != LoggedIn
    ensures Step(r, a) == r
  {
  }

  /** Attempts of the address with wrong credentials. */
  function Misses(attempts: seq<Attempt>, ip: string): nat
  {
    if attempts == [] then 0
    else (if From(attempts[0], ip) && !attempts[0].credentials then 1 else 0) + Misses(attempts[1..], ip)
  }

  /** Not locked, and a running counter stands at c at most. */
  ghost predicate AtMost(r: Redis, ip: string, now: int, c: nat)
  {
    !Alive(r, LockKey(ip), now) && (Alive(r, FailKey(ip), now) ==> r[FailKey(ip)].value <= c)
  }

  lemma MissCountsOne(r: Redis, a: Attempt, ip: string, c: nat)
    requires ip != "" && AtMost(r, ip, a.at, c)
    requires From(a, ip) && !a.credentials ==> c + 1 < LOCKOUT_MAX_ATTEMPTS
    ensures AtMost(Step(r, a), ip, a.at, if From(a, ip) && !a.credentials then c + 1 else c)
  {
    KeysApart(ip, ip);
    if !From(a, ip) {
      OthersDoNotInterfere(r, a, ip);
    }
  }

  lemma {:induction false} FewMissesNeverLock(r: Redis, attempts: seq<Attempt>, ip: string, now: int, later: int, c: nat)
    requires ip != "" && AtMost(r, ip, now, c) && Timed(attempts, now) && now <= later
    requires forall i :: 0 <= i < |attempts| ==> attempts[i].at <= later
    requires c + Misses(attempts, ip) < LOCKOUT_MAX_ATTEMPTS
    ensures AtMost(Run(r, attempts), ip, later, c + Misses(attempts, ip))
    decreases |attempts|
  {
    if attempts != [] {
      var a := attempts[0];
      MissCountsOne(r, a, ip, c);
      FewMissesNeverLock(Step(r, a), attempts[1..], ip, a.at, later, if From(a, ip) && !a.credentials then c + 1 else c);
    }
  }

  /** After a login the address has all its attempts back: through any timed run
      of requests from anywhere, as long as fewer than twenty of its own had
      wrong credentials, the next one is answered on its merits. */
  lemma LoginStartsOver(r: Redis, a: Attempt, ip: string, attempts: seq<Attempt>, b: Attempt)
    requires From(a, ip) && Respond(r, a) == LoggedIn && From(b, ip)
    requires Timed(attempts + [b], a.at) && Misses(attempts, ip) < 20
    ensures Respond(Run(Step(r, a), attempts), b) == Outcome(b)
  {
    var all := attempts + [b];
    KeysApart(ip, ip);
    assert AtMost(Step(r, a), ip, a.at, 0);
    assert forall i :: 0 <= i < |attempts| ==> all[i] == attempts[i] && all[i].at <= all[|attempts|].at;
    assert Timed(attempts, a.at);
    FewMissesNeverLock(Step(r, a), attempts, ip, a.at, b.at, 0);
  }

  // ---------------------------------------------------------------- locks are earned

  function Last(attempts: seq<Attempt>): Attempt
    requires attempts != []
  {
    attempts[|attempts| - 1]
  }

  function Init(attempts: seq<Attempt>): seq<Attempt>
    requires attempts != []
  {
    attempts[..|attempts| - 1]
  }

  lemma {:induction false} RunAppends(r: Redis, xs: seq<Attempt>, a: Attempt)
    ensures Run(r, xs + [a]) == Step(Run(r, xs), a)
    decreases |xs|
  {
    if xs == [] {
      assert ([a])[1..] == [];
    } else {
      assert (xs + [a])[1..] == xs[1..] + [a];
      RunAppends(Step(r, xs[0]), xs[1..], a);
    }
  }

  lemma LastStep(attempts: seq<Attempt>)
    requires attempts != []
    ensures Run(map[], attempts) == Step(Run(map[], Init(attempts)), Last(attempts))
  {
    assert attempts == Init(attempts) + [Last(attempts)];
    RunAppends(map[], Init(attempts), Last(attempts));
  }

  /** Counted failures of the address at `since` or later, from its latest
      successful login on. */
  ghost function Streak(attempts: seq<Attempt>, ip: string, since: int): nat
    decreases |attempts|
  {
    if attempts == [] then 0
    else
      var r := Run(map[], Init(attempts));
      var a := Last(attempts);
      if From(a, ip) && Respond(r, a) == LoggedIn then 0
      else
        Streak(Init(attempts), ip, since)
        + (if From(a, ip) && since <= a.at && Respond(r, a) == Unauthorized then 1 else 0)
  }

  lemma {:induction false} LongerStreak(attempts: seq<Attempt>, ip: string, since: int, earlier: int)
    requires earlier <= since
    ensures Streak(attempts, ip, since) <= Streak(attempts, ip, earlier)
    decreases |attempts|
  {
    if attempts != [] {
      LongerStreak(Init(attempts), ip, since, earlier);
    }
  }

  /** The n-th attempt is at least the twentieth counted failure of its address
      within less than 900 s and without a login in between. */
  ghost predicate Earned(attempts: seq<Attempt>, ip: string, n: nat)
  {
    && 0 < n <= |attempts| && From(attempts[n - 1], ip)
    && Streak(attempts[..n], ip, attempts[n - 1].at - 900_000 + 1) >= 20
  }

  ghost predicate CounterExplained(attempts: seq<Attempt>, ip: string, r: Redis)
  {
    FailKey(ip) in r ==>
      r[FailKey(ip)].expiresAt.Some? && r[FailKey(ip)].value <= Streak(attempts, ip, r[FailKey(ip)].expiresAt.value - WINDOW)
  }

  ghost predicate LockExplained(attempts: seq<Attempt>, ip: string, r: Redis)
  {
    LockKey(ip) in r ==>
      exists n: nat :: Earned(attempts, ip, n) && r[LockKey(ip)].expiresAt == Some(attempts[n - 1].at + DURATION)
  }

  lemma {:induction false} RunStaysConsistent(attempts: seq<Attempt>, ip: string, from: int, now: int)
    requires ip != "" && Timed(attempts, from) && from <= now && (attempts != [] ==> Last(attempts).at <= now)
    ensures Consistent(Run(map[], attempts), ip, now)
    decreases |attempts|
  {
    if attempts != [] {
      var a := Last(attempts);
      RunStaysConsistent(Init(attempts), ip, from, a.at);
      LastStep(attempts);
      StepStaysConsistent(Run(map[], Init(attempts)), a, ip);
    }
  }

  lemma StillEarned(attempts: seq<Attempt>, ip: string, r: Redis, d: Redis)
    requires attempts != [] && LockExplained(Init(attempts), ip, r)
    requires LockKey(ip) in d ==> LockKey(ip) in r && d[LockKey(ip)] == r[LockKey(ip)]
    ensures LockExplained(attempts, ip, d)
  {
    if LockKey(ip) in d {
      var n: nat :| Earned(Init(attempts), ip, n) && r[LockKey(ip)].expiresAt == Some(Init(attempts)[n - 1].at + DURATION);
      assert attempts[..n] == Init(attempts)[..n];
      assert Earned(attempts, ip, n);
    }
  }

  /** A counted failure lengthens the streak; the twentieth earns the lock. */
  lemma FailureExplained(attempts: seq<Attempt>, ip: string, r: Redis)
    requires attempts != [] && ip != "" && r == Run(map[], Init(attempts)) && Consistent(r, ip, Last(attempts).at)
    requires CounterExplained(Init(attempts), ip, r) && LockExplained(Init(attempts), ip, r)
    requires From(Last(attempts), ip) && Respond(r, Last(attempts)) == Unauthorized
    ensures CounterExplained(attempts, ip, Step(r, Last(attempts))) && LockExplained(attempts, ip, Step(r, Last(attempts)))
  {
    var a := Last(attempts);
    KeysApart(ip, ip);
    if Alive(r, FailKey(ip), a.at) {
      var since := r[FailKey(ip)].expiresAt.value - WINDOW;
      assert Streak(attempts, ip, since) == Streak(Init(attempts), ip, since) + 1;
      if r[FailKey(ip)].value + 1 >= LOCKOUT_MAX_ATTEMPTS {
        LongerStreak(attempts, ip, since, a.at - WINDOW + 1);
        assert attempts[..|attempts|] == attempts;
        assert Earned(attempts, ip, |attempts|);
      } else {
        StillEarned(attempts, ip, r, Step(r, a));
      }
    } else {
      StillEarned(attempts, ip, r, Step(r, a));
    }
  }

  lemma {:induction false} RunIsExplained(attempts: seq<Attempt>, ip: string, from: int)
    requires ip != "" && Timed(attempts, from)
    ensures CounterExplained(attempts, ip, Run(map[], attempts)) && LockExplained(attempts, ip, Run(map[], attempts))
    decreases |attempts|
  {
    if attempts != [] {
      var r, a := Run(map[], Init(attempts)), Last(attempts);
      RunIsExplained(Init(attempts), ip, from);
      LastStep(attempts);
      KeysApart(ip, ip);
      if !From(a, ip) {
        OthersDoNotInterfere(r, a, ip);
        StillEarned(attempts, ip, r, Step(r, a));
      } else if Respond(r, a) == Unauthorized {
        RunStaysConsistent(Init(attempts), ip, from, a.at);
        FailureExplained(attempts, ip, r);
      } else {
        StillEarned(attempts, ip, r, Step(r, a));
      }
    }
  }

  /** No address is turned away without cause: behind every refusal stands a
      failure less than 1800 s before it that was at least the twentieth counted
      one within 900 s, with no successful login in between. */
  lemma RefusalIsEarned(attempts: seq<Attempt>, a: Attempt, ip: string, from: int) returns (n: nat)
    requires Timed(attempts, from) && From(a, ip) && Respond(Run(map[], attempts), a) == TooManyRequests
    ensures Earned(attempts, ip, n) && a.at < attempts[n - 1].at + 1_800_000
  {
    RunIsExplained(attempts, ip, from);
    n :| Earned(attempts, ip, n) && Run(map[], attempts)[LockKey(ip)].expiresAt == Some(attempts[n - 1].at + DURATION);
  }
}
