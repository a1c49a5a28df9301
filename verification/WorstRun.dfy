/**
  The interleaved budget is not slack: a run that pays cap - 1 dropped failures for one
  lockout after another and attains the bound on a whole window. First single failures up to
  the last permitted; then, as each lockout ends, cap requests that all pass the check before
  any of them is recorded.
*/
module WorstRun {
  import opened Seqs
  import opened RateLimit
  import opened RateLimiter
  import opened Interleaving

  function Copies(t: nat, n: nat): (s: seq<nat>)
    ensures |s| == n && forall i :: 0 <= i < n ==> s[i] == t
  {
    seq(n, i => t)
  }

  // ---------------------------------------------------------------- what the failures come to

  /** Attempts ts left this slice and lockout, with h counted and these lockouts started. */
  ghost predicate StageOf(c: Config, ts: seq<nat>, f: seq<nat>, h: seq<nat>, starts: seq<nat>, until: int, now: nat) {
    && Sorted(ts) && NoneAfter(ts, now)
    && SlotAfter(c, ts) == Slot(f, until) && Counted(c, ts) == h && LockoutStarts(c, h) == starts
  }

  /** The same with nothing pruned. */
  ghost predicate Stage(c: Config, ts: seq<nat>, h: seq<nat>, starts: seq<nat>, until: int, now: nat) {
    StageOf(c, ts, h, h, starts, until, now)
  }

  lemma {:induction false} CountedSlot(c: Config, ts: seq<nat>, f: seq<nat>, until: int, t: nat)
    requires SlotAfter(c, ts) == Slot(f, until) && until <= t
    ensures var f' := After(f, t - c.window) + [t];
            SlotAfter(c, ts + [t]) == Slot(f', if |f'| >= c.maxAttempts then t + c.lockout else until)
  {
    SlotStep(c, ts, t);
  }

  lemma {:induction false} AccountedTells(h: seq<nat>, starts: seq<nat>, lockout: int, until: int, t: nat,
                                          h': seq<nat>, starts': seq<nat>, until': int)
    requires Accounted(h, starts, lockout, until, t, h', starts', until') && lockout > 0 && until <= t
    ensures h' == h + [t] && starts' == if until' > t then starts + [t] else starts
  {
  }

  /** A failure that is counted, and locks if it fills the slice. */
  lemma {:induction false} CountInto(c: Config, ts: seq<nat>, f: seq<nat>, h: seq<nat>, starts: seq<nat>, until: int,
                                     now: nat, t: nat)
    requires StageOf(c, ts, f, h, starts, until, now) && now <= t && until <= t && c.lockout > 0
    ensures var f' := After(f, t - c.window) + [t];
            var full := |f'| >= c.maxAttempts;
            StageOf(c, ts + [t], f', h + [t], if full then starts + [t] else starts,
                    if full then t + c.lockout else until, t)
  {
    FailureAccounted(c, ts, t);
    CountedSlot(c, ts, f, until, t);
    var h' := Counted(c, ts + [t]);
    AccountedTells(h, starts, c.lockout, until, t, h', LockoutStarts(c, h'), SlotAfter(c, ts + [t]).lockoutUntil);
    SortedExtended(ts, now, t);
  }

  /** While the first window lasts the slice is the whole history. */
  lemma {:induction false} CountOne(c: Config, ts: seq<nat>, h: seq<nat>, starts: seq<nat>, until: int,
                                    now: nat, t: nat)
    requires Stage(c, ts, h, starts, until, now) && now <= t && until <= t < c.window && c.lockout > 0
    ensures var full := |h| + 1 >= c.maxAttempts;
            Stage(c, ts + [t], h + [t], if full then starts + [t] else starts, if full then t + c.lockout else until, t)
  {
    AllAfter(h, t - c.window);
    CountInto(c, ts, h, h, starts, until, now, t);
  }

  lemma {:induction false} DropOne(c: Config, ts: seq<nat>, f: seq<nat>, h: seq<nat>, starts: seq<nat>, until: int,
                                   now: nat, t: nat)
    requires StageOf(c, ts, f, h, starts, until, now) && now <= t < until
    ensures StageOf(c, ts + [t], f, h, starts, until, t)
  {
    assert NoneAfter(ts, t);
    FailureAccounted(c, ts, t);
    SortedExtended(ts, now, t);
  }

  lemma {:induction false} CopiesJoin(ts: seq<nat>, t: nat, n: nat)
    ensures ts + Copies(t, 0) == ts
    ensures ts + Copies(t, n + 1) == ts + Copies(t, n) + [t] == ts + [t] + Copies(t, n)
  {
  }

  lemma {:induction false} DropMany(c: Config, ts: seq<nat>, f: seq<nat>, h: seq<nat>, starts: seq<nat>, until: int,
                                    now: nat, t: nat, n: nat)
    requires StageOf(c, ts, f, h, starts, until, now) && now <= t < until
    ensures StageOf(c, ts + Copies(t, n), f, h, starts, until, t)
  {
    CopiesJoin(ts, t, if n == 0 then 0 else n - 1);
    if n == 0 {
      assert NoneAfter(ts, t);
    } else {
      DropMany(c, ts, f, h, starts, until, now, t, n - 1);
      DropOne(c, ts + Copies(t, n - 1), f, h, starts, until, t, t);
    }
  }

  /** n failures at t, when nothing is locked and the next one fills the slice. */
  lemma {:induction false} RoundInto(c: Config, ts: seq<nat>, f: seq<nat>, h: seq<nat>, starts: seq<nat>, until: int,
                                     now: nat, t: nat, n: nat)
    requires StageOf(c, ts, f, h, starts, until, now) && now <= t && until <= t && c.lockout > 0
    requires |After(f, t - c.window)| + 1 >= c.maxAttempts && n >= 1
    ensures StageOf(c, ts + Copies(t, n), After(f, t - c.window) + [t], h + [t], starts + [t], t + c.lockout, t)
  {
    var f' := After(f, t - c.window) + [t];
    CountInto(c, ts, f, h, starts, until, now, t);
    DropMany(c, ts + [t], f', h + [t], starts + [t], t + c.lockout, t, t, n - 1);
    CopiesJoin(ts, t, n - 1);
  }

  /** n failures at t, when nothing is locked and the next one locks. */
  lemma {:induction false} RoundCounts(c: Config, ts: seq<nat>, h: seq<nat>, starts: seq<nat>, until: int, now: nat,
                                       t: nat, n: nat)
    requires Stage(c, ts, h, starts, until, now) && now <= t && until <= t < c.window && c.lockout > 0
    requires |h| + 1 >= c.maxAttempts && n >= 1
    ensures Stage(c, ts + Copies(t, n), h + [t], starts + [t], t + c.lockout, t)
  {
    AllAfter(h, t - c.window);
    RoundInto(c, ts, h, h, starts, until, now, t, n);
  }

  /** Failures one at a time, short of the one that locks. */
  lemma {:induction false} PreludeCounts(c: Config, n: nat)
    requires Sane(c) && n < c.maxAttempts
    ensures Stage(c, Copies(0, n), Copies(0, n), [], 0, 0)
  {
    if n == 0 {
      assert Copies(0, 0) == [];
    } else {
      var before := Copies(0, n - 1);
      PreludeCounts(c, n - 1);
      CountOne(c, before, before, [], 0, 0, 0);
      OneCopyMore(0, n - 1);
      assert Copies(0, n) == before + [0];
    }
  }

  lemma {:induction false} OneCopyMore(t: nat, n: nat)
    ensures Copies(t, n + 1) == Copies(t, n) + [t] == Copies(t, n) + Copies(t, 1)
  {
  }

  /** When the k-th lockout ends, counting the start as none. */
  function End(c: Config, k: nat): nat
    requires c.lockout > 0
  {
    if k == 0 then 0 else End(c, k - 1) + c.lockout
  }

  lemma {:induction false} EndIsProduct(c: Config, k: nat)
    requires c.lockout > 0
    ensures End(c, k) == k * c.lockout
  {
    if k > 0 {
      EndIsProduct(c, k - 1);
      OneMore(c.lockout, k - 1);
    }
  }

  /** The failures of the prelude and of the rounds 0 to k, and what they come to. */
  function Attempts(c: Config, cap: nat, k: nat): seq<nat>
    requires Sane(c)
  {
    (if k == 0 then Copies(0, c.maxAttempts - 1) else Attempts(c, cap, k - 1)) + Copies(End(c, k), cap)
  }

  function CountedOnes(c: Config, k: nat): (h: seq<nat>)
    requires Sane(c)
    ensures |h| == c.maxAttempts + k
  {
    (if k == 0 then Copies(0, c.maxAttempts - 1) else CountedOnes(c, k - 1)) + [End(c, k)]
  }

  function Starts(c: Config, k: nat): (starts: seq<nat>)
    requires Sane(c)
    ensures |starts| == k + 1
  {
    (if k == 0 then [] else Starts(c, k - 1)) + [End(c, k)]
  }

  lemma {:induction false} RoundsStep(c: Config, ts: seq<nat>, h: seq<nat>, starts: seq<nat>, until: int, now: nat,
                                      t: nat, n: nat)
    returns (ts': seq<nat>, h': seq<nat>, starts': seq<nat>)
    requires Stage(c, ts, h, starts, until, now) && now <= t && until <= t < c.window && c.lockout > 0
    requires |h| + 1 >= c.maxAttempts && n >= 1
    ensures ts' == ts + Copies(t, n) && h' == h + [t] && starts' == starts + [t]
    ensures Stage(c, ts', h', starts', t + c.lockout, t)
  {
    RoundCounts(c, ts, h, starts, until, now, t, n);
    ts', h', starts' := ts + Copies(t, n), h + [t], starts + [t];
  }

  lemma {:induction false} RoundsCount(c: Config, cap: nat, k: nat)
    returns (ts: seq<nat>, h: seq<nat>, starts: seq<nat>)
    requires Sane(c) && cap >= 1 && End(c, k) < c.window
    ensures ts == Attempts(c, cap, k) && h == CountedOnes(c, k) && starts == Starts(c, k)
    ensures Stage(c, ts, h, starts, End(c, k) + c.lockout, End(c, k))
  {
    var now, until := 0, 0;
    if k == 0 {
      ts := Copies(0, c.maxAttempts - 1);
      h, starts := ts, [];
      PreludeCounts(c, c.maxAttempts - 1);
    } else {
      ts, h, starts := RoundsCount(c, cap, k - 1);
      now, until := End(c, k - 1), End(c, k);
    }
    ts, h, starts := RoundsStep(c, ts, h, starts, until, now, End(c, k), cap);
  }

  lemma {:induction false} HowMany(c: Config, cap: nat, k: nat)
    requires Sane(c)
    ensures |Attempts(c, cap, k)| == c.maxAttempts + k + (cap - 1) * (k + 1)
  {
    if k > 0 {
      HowMany(c, cap, k - 1);
      assert |Attempts(c, cap, k)| == |Attempts(c, cap, k - 1)| + cap;
    }
    OneMore(cap - 1, k);
  }

  lemma {:induction false} StartsByEnd(c: Config, k: nat)
    requires Sane(c)
    ensures forall t :: t in Starts(c, k) ==> t <= End(c, k)
  {
    if k > 0 {
      StartsByEnd(c, k - 1);
    }
  }

  // ---------------------------------------------------------------- how a run gets there

  /** m requests of the IP that wait to record a failure. */
  function Waiting(ip: string, m: nat): (flight: map<nat, Flight>)
    ensures forall id: nat :: id in flight <==> id < m
    ensures forall id: nat :: id in flight ==> flight[id] == Flight(ip, Recording)
  {
    if m == 0 then map[] else Waiting(ip, m - 1)[m - 1 := Flight(ip, Recording)]
  }

  function LogOf(ip: string, ts: seq<nat>): seq<Failure> {
    seq(|ts|, i requires 0 <= i < |ts| => Failure(ip, ts[i]))
  }

  /** The failures ts of the IP are recorded, and m more requests wait to record theirs. */
  function Poised(ip: string, ts: seq<nat>, m: nat, now: nat): State {
    State(LogOf(ip, ts), Waiting(ip, m), now)
  }

  /** One more is past the check and not yet answered. */
  function Checked(ip: string, ts: seq<nat>, m: nat, now: nat): State {
    State(LogOf(ip, ts), Waiting(ip, m)[m := Flight(ip, Binding)], now)
  }

  lemma {:induction false} LoggedFailures(ip: string, ts: seq<nat>)
    ensures FailuresOf(LogOf(ip, ts), ip) == ts
  {
    if ts != [] {
      LoggedFailures(ip, Init(ts));
      assert LogOf(ip, ts) == LogOf(ip, Init(ts)) + [Failure(ip, Last(ts))];
      FailuresOfAppend(LogOf(ip, Init(ts)), Failure(ip, Last(ts)), ip);
      assert ts == Init(ts) + [Last(ts)];
    }
  }

  lemma {:induction false} PoisedInFlight(ip: string, ts: seq<nat>, m: nat, now: nat)
    ensures |InFlight(Poised(ip, ts, m, now), ip)| == m
  {
    if m > 0 {
      PoisedInFlight(ip, ts, m - 1, now);
      assert InFlight(Poised(ip, ts, m, now), ip) == InFlight(Poised(ip, ts, m - 1, now), ip) + {m - 1};
    } else {
      assert InFlight(Poised(ip, ts, 0, now), ip) == {};
    }
  }

  lemma {:induction false} CheckedInFlight(ip: string, ts: seq<nat>, m: nat, now: nat)
    ensures |InFlight(Checked(ip, ts, m, now), ip)| == m + 1
  {
    PoisedInFlight(ip, ts, m, now);
    assert InFlight(Checked(ip, ts, m, now), ip) == InFlight(Poised(ip, ts, m, now), ip) + {m};
  }

  lemma {:induction false} StepReaches(c: Config, ip: string, cap: nat, steps: seq<Step>, before: State, step: Step)
    requires Reachable(c, ip, cap, steps, before) && Enabled(before, step)
    requires |InFlight(Next(c, before, step), ip)| <= cap
    ensures Reachable(c, ip, cap, steps + [step], Next(c, before, step))
  {
    assert Init(steps + [step]) == steps;
  }

  lemma {:induction false} CheckPasses(c: Config, ip: string, ts: seq<nat>, m: nat, now: nat, t: nat)
    requires now <= t && SlotAfter(c, ts).lockoutUntil <= t
    ensures Enabled(Poised(ip, ts, m, now), Check(m, ip, t))
    ensures Next(c, Poised(ip, ts, m, now), Check(m, ip, t)) == Checked(ip, ts, m, t)
  {
    LoggedFailures(ip, ts);
  }

  lemma {:induction false} BindFails(c: Config, ip: string, ts: seq<nat>, m: nat, t: nat)
    ensures Enabled(Checked(ip, ts, m, t), Answer(m, true))
    ensures Next(c, Checked(ip, ts, m, t), Answer(m, true)) == Poised(ip, ts, m + 1, t)
  {
  }

  lemma {:induction false} LaunchChecked(c: Config, ip: string, cap: nat, steps: seq<Step>, ts: seq<nat>, m: nat,
                                         now: nat, t: nat)
    requires Reachable(c, ip, cap, steps, Poised(ip, ts, m, now)) && m < cap
    requires now <= t && SlotAfter(c, ts).lockoutUntil <= t
    ensures Reachable(c, ip, cap, steps + [Check(m, ip, t)], Checked(ip, ts, m, t))
  {
    CheckPasses(c, ip, ts, m, now, t);
    CheckedInFlight(ip, ts, m, t);
    StepReaches(c, ip, cap, steps, Poised(ip, ts, m, now), Check(m, ip, t));
  }

  lemma {:induction false} LaunchAnswered(c: Config, ip: string, cap: nat, steps: seq<Step>, ts: seq<nat>,
                                          m: nat, t: nat)
    requires Reachable(c, ip, cap, steps, Checked(ip, ts, m, t)) && m < cap
    ensures Reachable(c, ip, cap, steps + [Answer(m, true)], Poised(ip, ts, m + 1, t))
  {
    BindFails(c, ip, ts, m, t);
    PoisedInFlight(ip, ts, m + 1, t);
    StepReaches(c, ip, cap, steps, Checked(ip, ts, m, t), Answer(m, true));
  }

  /** While nothing is locked, m requests get past the check and fail their bind. */
  lemma {:induction false} Launch(c: Config, ip: string, cap: nat, before: seq<Step>, ts: seq<nat>,
                                  now: nat, t: nat, m: nat)
    returns (steps: seq<Step>)
    requires Reachable(c, ip, cap, before, Poised(ip, ts, 0, now)) && 1 <= m <= cap
    requires now <= t && SlotAfter(c, ts).lockoutUntil <= t
    ensures Reachable(c, ip, cap, steps, Poised(ip, ts, m, t))
    decreases m
  {
    steps := before;
    if m > 1 {
      steps := Launch(c, ip, cap, before, ts, now, t, m - 1);
    }
    LaunchChecked(c, ip, cap, steps, ts, m - 1, if m > 1 then t else now, t);
    LaunchAnswered(c, ip, cap, steps + [Check(m - 1, ip, t)], ts, m - 1, t);
    steps := steps + [Check(m - 1, ip, t)] + [Answer(m - 1, true)];
  }

  lemma {:induction false} FailureLands(c: Config, ip: string, ts: seq<nat>, m: nat, now: nat, t: nat)
    requires now <= t
    ensures Enabled(Poised(ip, ts, m + 1, now), Settle(m, t))
    ensures Next(c, Poised(ip, ts, m + 1, now), Settle(m, t)) == Poised(ip, ts + [t], m, t)
  {
    assert Waiting(ip, m + 1) - {m} == Waiting(ip, m);
    assert LogOf(ip, ts + [t]) == LogOf(ip, ts) + [Failure(ip, t)];
  }

  lemma {:induction false} LandOne(c: Config, ip: string, cap: nat, steps: seq<Step>, ts: seq<nat>,
                                   now: nat, t: nat, m: nat)
    requires Reachable(c, ip, cap, steps, Poised(ip, ts, m + 1, now)) && m <= cap && now <= t
    ensures Reachable(c, ip, cap, steps + [Settle(m, t)], Poised(ip, ts + [t], m, t))
  {
    FailureLands(c, ip, ts, m, now, t);
    PoisedInFlight(ip, ts + [t], m, t);
    StepReaches(c, ip, cap, steps, Poised(ip, ts, m + 1, now), Settle(m, t));
  }

  /** And all of them record their failure, at some later time. */
  lemma {:induction false} Land(c: Config, ip: string, cap: nat, before: seq<Step>, ts: seq<nat>,
                                now: nat, t: nat, m: nat)
    returns (steps: seq<Step>)
    requires Reachable(c, ip, cap, before, Poised(ip, ts, m, now)) && 1 <= m <= cap && now <= t
    ensures Reachable(c, ip, cap, steps, Poised(ip, ts + Copies(t, m), 0, t))
    decreases m
  {
    LandOne(c, ip, cap, before, ts, now, t, m - 1);
    steps := before + [Settle(m - 1, t)];
    LandedJoin(ts, t, m - 1);
    if m > 1 {
      steps := Land(c, ip, cap, steps, ts + [t], t, t, m - 1);
    }
  }

  lemma {:induction false} LandedJoin(ts: seq<nat>, t: nat, n: nat)
    ensures ts + Copies(t, n + 1) == ts + [t] + Copies(t, n)
    ensures n == 0 ==> ts + Copies(t, n + 1) == ts + [t]
  {
    CopiesJoin(ts, t, n);
  }

  // ---------------------------------------------------------------- round after round

  lemma {:induction false} PreludeReached(c: Config, ip: string, cap: nat, n: nat) returns (steps: seq<Step>)
    requires Sane(c) && cap >= 1 && n < c.maxAttempts
    ensures Reachable(c, ip, cap, steps, Poised(ip, Copies(0, n), 0, 0))
  {
    if n == 0 {
      steps := [];
      NothingYet(c, ip, cap);
    } else {
      steps := PreludeReached(c, ip, cap, n - 1);
      PreludeCounts(c, n - 1);
      steps := OneRound(c, ip, cap, steps, Copies(0, n - 1), 0, 0, 1);
      OneCopyMore(0, n - 1);
    }
  }

  lemma {:induction false} NothingYet(c: Config, ip: string, cap: nat)
    ensures Reachable(c, ip, cap, [], Poised(ip, Copies(0, 0), 0, 0))
  {
    PoisedInFlight(ip, Copies(0, 0), 0, 0);
    assert Poised(ip, Copies(0, 0), 0, 0) == START;
  }

  /** n requests all pass the check before any of them is recorded. */
  lemma {:induction false} OneRound(c: Config, ip: string, cap: nat, before: seq<Step>, ts: seq<nat>,
                                    now: nat, t: nat, n: nat)
    returns (steps: seq<Step>)
    requires Reachable(c, ip, cap, before, Poised(ip, ts, 0, now)) && 1 <= n <= cap
    requires now <= t && SlotAfter(c, ts).lockoutUntil <= t
    ensures Reachable(c, ip, cap, steps, Poised(ip, ts + Copies(t, n), 0, t))
  {
    steps := Launch(c, ip, cap, before, ts, now, t, n);
    steps := Land(c, ip, cap, steps, ts, t, t, n);
  }

  lemma {:induction false} LockEnds(c: Config, cap: nat, k: nat)
    requires Sane(c) && cap >= 1 && k > 0 && End(c, k) < c.window
    ensures SlotAfter(c, Attempts(c, cap, k - 1)).lockoutUntil <= End(c, k)
  {
    var ts, h, starts := RoundsCount(c, cap, k - 1);
  }

  lemma {:induction false} PreludeUnlocked(c: Config)
    requires Sane(c)
    ensures SlotAfter(c, Copies(0, c.maxAttempts - 1)).lockoutUntil <= 0
  {
    PreludeCounts(c, c.maxAttempts - 1);
  }

  lemma {:induction false} RoundsReached(c: Config, ip: string, cap: nat, k: nat) returns (steps: seq<Step>)
    requires Sane(c) && cap >= 1 && End(c, k) < c.window
    ensures Reachable(c, ip, cap, steps, Poised(ip, Attempts(c, cap, k), 0, End(c, k)))
  {
    if k == 0 {
      steps := PreludeReached(c, ip, cap, c.maxAttempts - 1);
      PreludeUnlocked(c);
      steps := OneRound(c, ip, cap, steps, Copies(0, c.maxAttempts - 1), 0, 0, cap);
    } else {
      steps := RoundsReached(c, ip, cap, k - 1);
      LockEnds(c, cap, k);
      steps := OneRound(c, ip, cap, steps, Attempts(c, cap, k - 1), End(c, k - 1), End(c, k), cap);
    }
  }

  lemma {:induction false} AllWithin(c: Config, ts: seq<nat>, starts: seq<nat>, now: nat)
    requires NoneAfter(ts, now) && now < c.window && c.lockout > 0
    requires forall t :: t in starts ==> t <= now
    ensures CountIn(ts, -1, -1 + c.window) == |ts|
    ensures CountIn(starts, -1 + 1 - c.lockout, -1 + c.window) == |starts|
  {
    forall t | t in ts ensures -1 < t <= -1 + c.window {
      var i :| 0 <= i < |ts| && ts[i] == t;
    }
    EverythingCounts(ts, -1, -1 + c.window);
    EverythingCounts(starts, -1 + 1 - c.lockout, -1 + c.window);
  }

  /** What the rounds come to on the window that starts the run. */
  lemma {:induction false} RoundsWithin(c: Config, cap: nat, k: nat)
    requires Sane(c) && cap >= 1 && End(c, k) < c.window
    ensures var ts := Attempts(c, cap, k);
            && |LockoutStarts(c, Counted(c, ts))| == LockoutsIn(c, Counted(c, ts), -1, -1 + c.window) == k + 1
            && CountIn(ts, -1, -1 + c.window) == |ts| == |Counted(c, ts)| + (cap - 1) * (k + 1)
            && |Counted(c, ts)| == c.maxAttempts + k
  {
    var ts, h, starts := RoundsCount(c, cap, k);
    HowMany(c, cap, k);
    StartsByEnd(c, k);
    StageWithin(c, ts, h, starts, End(c, k) + c.lockout, End(c, k));
  }

  lemma {:induction false} StageWithin(c: Config, ts: seq<nat>, h: seq<nat>, starts: seq<nat>, until: int, now: nat)
    requires Stage(c, ts, h, starts, until, now) && now < c.window && c.lockout > 0
    requires forall t :: t in starts ==> t <= now
    ensures Counted(c, ts) == h && LockoutStarts(c, Counted(c, ts)) == starts
    ensures CountIn(ts, -1, -1 + c.window) == |ts|
    ensures LockoutsIn(c, Counted(c, ts), -1, -1 + c.window) == |starts|
  {
    AllWithin(c, ts, starts, now);
    assert LockoutsIn(c, h, -1, -1 + c.window) == CountIn(starts, -1 + 1 - c.lockout, -1 + c.window);
  }

  /** With cap requests past the check when the last permitted failure is recorded, cap - 1 are dropped. */
  lemma {:induction false} DropsAreAttained(c: Config, ip: string, cap: nat) returns (steps: seq<Step>, s: State)
    requires Sane(c) && cap >= 1
    ensures Reachable(c, ip, cap, steps, s)
    ensures var ts := FailuresOf(s.log, ip);
            |LockoutStarts(c, Counted(c, ts))| == 1 && |ts| == |Counted(c, ts)| + (cap - 1)
  {
    steps := RoundsReached(c, ip, cap, 0);
    s := Poised(ip, Attempts(c, cap, 0), 0, End(c, 0));
    LoggedFailures(ip, Attempts(c, cap, 0));
    RoundsWithin(c, cap, 0);
  }

  /**
    The bound of AnyIntervalAdmitsAtMost is attained, in every positive configuration and for
    every cap, on the window that starts the run: the whole budget is counted, and cap - 1
    failures are dropped for each of the lockouts, as many as start in a window.
  */
  lemma {:induction false} WindowBoundIsAttained(c: Config, ip: string, cap: nat) returns (steps: seq<Step>, s: State)
    requires Sane(c) && cap >= 1
    ensures Reachable(c, ip, cap, steps, s)
    ensures var ts, end := FailuresOf(s.log, ip), -1 + c.window;
            var lockouts := LockoutsIn(c, Counted(c, ts), -1, end);
            && lockouts == CeilDiv(c.window, c.lockout)
            && CountIn(ts, -1, end) == WindowBudget(c) * CeilDiv(c.window, c.window) + (cap - 1) * lockouts
  {
    var k := RoundsInWindow(c);
    steps := RoundsReached(c, ip, cap, k);
    s := Poised(ip, Attempts(c, cap, k), 0, End(c, k));
    LoggedFailures(ip, Attempts(c, cap, k));
    RoundsWithin(c, cap, k);
  }

  lemma {:induction false} RoundsInWindow(c: Config) returns (k: nat)
    requires Sane(c)
    ensures k + 1 == CeilDiv(c.window, c.lockout) && End(c, k) < c.window
    ensures WindowBudget(c) * CeilDiv(c.window, c.window) == c.maxAttempts + k
  {
    CeilDivLeast(c.window, c.lockout, 0);
    k := CeilDiv(c.window, c.lockout) - 1;
    EndIsProduct(c, k);
    CeilDivLeast(c.window, c.lockout, k);
    CeilDivSmall(c.window, c.window);
  }

  // ---------------------------------------------------------------- with a lockout standing

  lemma {:induction false} AllPruned(f: seq<nat>, cutoff: int)
    requires forall i :: 0 <= i < |f| ==> f[i] <= cutoff
    ensures After(f, cutoff) == []
  {
    AfterIsSuffix(f, cutoff, |f|);
  }

  lemma {:induction false} SingleFirst(c: Config, ts: seq<nat>, f: seq<nat>, h: seq<nat>, starts: seq<nat>, until: int,
                                       now: nat, t: nat)
    requires StageOf(c, ts, f, h, starts, until, now) && now <= t && until <= t && Sane(c) && c.maxAttempts > 1
    requires forall i :: 0 <= i < |f| ==> f[i] <= t - c.window
    ensures StageOf(c, ts + [t], Copies(t, 1), h + [t], starts, until, t)
  {
    AllPruned(f, t - c.window);
    assert After(f, t - c.window) + [t] == Copies(t, 1);
    CountsAlone(c, ts, f, Copies(t, 1), h, starts, until, now, t);
  }

  lemma {:induction false} CountsAlone(c: Config, ts: seq<nat>, f: seq<nat>, f': seq<nat>, h: seq<nat>,
                                       starts: seq<nat>, until: int, now: nat, t: nat)
    requires StageOf(c, ts, f, h, starts, until, now) && now <= t && until <= t && c.lockout > 0
    requires f' == After(f, t - c.window) + [t] && |f'| < c.maxAttempts
    ensures StageOf(c, ts + [t], f', h + [t], starts, until, t)
  {
    CountInto(c, ts, f, h, starts, until, now, t);
  }

  lemma {:induction false} SingleNext(c: Config, ts: seq<nat>, h: seq<nat>, starts: seq<nat>, until: int,
                                      t: nat, k: nat)
    requires StageOf(c, ts, Copies(t, k), h, starts, until, t) && until <= t && Sane(c) && k + 1 < c.maxAttempts
    ensures StageOf(c, ts + [t], Copies(t, k + 1), h + [t], starts, until, t)
  {
    AllAfter(Copies(t, k), t - c.window);
    CountInto(c, ts, Copies(t, k), h, starts, until, t, t);
    OneCopyMore(t, k);
  }

  /** Singles at t on a slice that has all aged out. */
  lemma {:induction false} SinglesCount(c: Config, ts: seq<nat>, f: seq<nat>, h: seq<nat>, starts: seq<nat>, until: int,
                                        now: nat, t: nat, n: nat)
    returns (ts': seq<nat>, h': seq<nat>)
    requires StageOf(c, ts, f, h, starts, until, now) && now <= t && until <= t && Sane(c) && 1 <= n < c.maxAttempts
    requires forall i :: 0 <= i < |f| ==> f[i] <= t - c.window
    ensures ts' == ts + Copies(t, n) && StageOf(c, ts', Copies(t, n), h', starts, until, t)
    decreases n
  {
    if n == 1 {
      SingleFirst(c, ts, f, h, starts, until, now, t);
      ts', h' := ts + [t], h + [t];
      CopiesJoin(ts, t, 0);
    } else {
      ts', h' := SinglesCount(c, ts, f, h, starts, until, now, t, n - 1);
      SingleNext(c, ts', h', starts, until, t, n - 1);
      ts', h' := ts' + [t], h' + [t];
      CopiesJoin(ts, t, n - 1);
    }
  }

  /** The prelude, a lockout at 0, and cap - 1 drops as late as that lockout allows. */
  function Waited(c: Config, cap: nat): seq<nat>
    requires Sane(c) && cap >= 1
  {
    Copies(0, c.maxAttempts) + Copies(c.lockout - 1, cap - 1)
  }

  /** Then the whole budget again as it ends, with another cap - 1 drops. */
  function Repeated(c: Config, cap: nat): seq<nat>
    requires Sane(c) && cap >= 1
  {
    Waited(c, cap) + Copies(c.lockout, c.maxAttempts - 1) + Copies(c.lockout, cap)
  }

  lemma {:induction false} FirstLock(c: Config)
    requires Sane(c)
    ensures Stage(c, Copies(0, c.maxAttempts), Copies(0, c.maxAttempts), [0], c.lockout, 0)
  {
    var before := Copies(0, c.maxAttempts - 1);
    PreludeCounts(c, c.maxAttempts - 1);
    CountOne(c, before, before, [], 0, 0, 0);
    OneCopyMore(0, c.maxAttempts - 1);
    assert Copies(0, c.maxAttempts) == before + [0];
    assert [] + [0] == [0];
  }

  lemma {:induction false} WaitedCounts(c: Config, cap: nat) returns (ts: seq<nat>, h: seq<nat>)
    requires Sane(c) && cap >= 1
    ensures ts == Waited(c, cap) && h == Copies(0, c.maxAttempts)
    ensures Stage(c, ts, h, [0], c.lockout, c.lockout - 1)
  {
    h := Copies(0, c.maxAttempts);
    FirstLock(c);
    DropMany(c, h, h, h, [0], c.lockout, 0, c.lockout - 1, cap - 1);
    ts := h + Copies(c.lockout - 1, cap - 1);
  }

  /** The singles at the end of the lockout: the slice is empty but for them, and nothing locks. */
  lemma {:induction false} SinglesAgain(c: Config, ts: seq<nat>, h: seq<nat>, n: nat)
    returns (ts': seq<nat>, f': seq<nat>, h': seq<nat>, now': nat)
    requires Sane(c) && c.lockout >= c.window && n < c.maxAttempts
    requires Stage(c, ts, h, [0], c.lockout, c.lockout - 1) && forall i :: 0 <= i < |h| ==> h[i] == 0
    ensures ts' == ts + Copies(c.lockout, n) && now' <= c.lockout
    ensures StageOf(c, ts', f', h', [0], c.lockout, now') && |After(f', c.lockout - c.window)| == n
  {
    var l := c.lockout;
    if n == 0 {
      CopiesJoin(ts, l, 0);
      ts', f', h', now' := ts, h, h, l - 1;
      AllPruned(f', l - c.window);
    } else {
      ts', h' := SinglesCount(c, ts, h, h, [0], l, l - 1, l, n);
      f', now' := Copies(l, n), l;
      SinglesStay(c, n);
    }
  }

  lemma {:induction false} SinglesStay(c: Config, n: nat)
    requires Sane(c)
    ensures |After(Copies(c.lockout, n), c.lockout - c.window)| == n
  {
    AllAfter(Copies(c.lockout, n), c.lockout - c.window);
  }

  lemma {:induction false} SinglesUnlocked(c: Config, cap: nat, n: nat)
    requires Sane(c) && cap >= 1 && c.lockout >= c.window && n < c.maxAttempts
    ensures SlotAfter(c, Waited(c, cap) + Copies(c.lockout, n)).lockoutUntil <= c.lockout
  {
    var ts, h := WaitedCounts(c, cap);
    var ts', f', h', now' := SinglesAgain(c, ts, h, n);
  }

  lemma {:induction false} RepeatedCounts(c: Config, cap: nat) returns (ts: seq<nat>, h: seq<nat>)
    requires Sane(c) && cap >= 1 && c.lockout >= c.window
    ensures ts == Repeated(c, cap) && Counted(c, ts) == h && LockoutStarts(c, h) == [0] + [c.lockout]
  {
    ts, h := WaitedCounts(c, cap);
    var f, now;
    ts, f, h, now := SinglesAgain(c, ts, h, c.maxAttempts - 1);
    ts, h := RoundAgain(c, ts, f, h, now, cap);
  }

  lemma {:induction false} RoundAgain(c: Config, ts: seq<nat>, f: seq<nat>, h: seq<nat>, now: nat, n: nat)
    returns (ts': seq<nat>, h': seq<nat>)
    requires StageOf(c, ts, f, h, [0], c.lockout, now) && Sane(c) && now <= c.lockout && n >= 1
    requires |After(f, c.lockout - c.window)| + 1 >= c.maxAttempts
    ensures ts' == ts + Copies(c.lockout, n) && Counted(c, ts') == h' && LockoutStarts(c, h') == [0] + [c.lockout]
  {
    RoundInto(c, ts, f, h, [0], c.lockout, now, c.lockout, n);
    ts', h' := ts + Copies(c.lockout, n), h + [c.lockout];
  }

  lemma {:induction false} WaitedReached(c: Config, ip: string, cap: nat) returns (steps: seq<Step>, now: nat)
    requires Sane(c) && cap >= 1
    ensures now <= c.lockout && Reachable(c, ip, cap, steps, Poised(ip, Waited(c, cap), 0, now))
  {
    var ts := Copies(0, c.maxAttempts - 1);
    steps := PreludeReached(c, ip, cap, c.maxAttempts - 1);
    PreludeUnlocked(c);
    steps := Launch(c, ip, cap, steps, ts, 0, 0, cap);
    LandOne(c, ip, cap, steps, ts, 0, 0, cap - 1);
    OneCopyMore(0, c.maxAttempts - 1);
    steps, now := steps + [Settle(cap - 1, 0)], 0;
    CopiesJoin(Copies(0, c.maxAttempts), c.lockout - 1, 0);
    if cap > 1 {
      now := c.lockout - 1;
      steps := Land(c, ip, cap, steps, Copies(0, c.maxAttempts), 0, now, cap - 1);
    }
  }

  lemma {:induction false} SinglesReached(c: Config, ip: string, cap: nat, before: seq<Step>, now: nat, n: nat)
    returns (steps: seq<Step>, now': nat)
    requires Sane(c) && cap >= 1 && c.lockout >= c.window && n < c.maxAttempts && now <= c.lockout
    requires Reachable(c, ip, cap, before, Poised(ip, Waited(c, cap), 0, now))
    ensures now' <= c.lockout
    ensures Reachable(c, ip, cap, steps, Poised(ip, Waited(c, cap) + Copies(c.lockout, n), 0, now'))
    decreases n
  {
    CopiesJoin(Waited(c, cap), c.lockout, if n == 0 then 0 else n - 1);
    if n == 0 {
      steps, now' := before, now;
    } else {
      steps, now' := SinglesReached(c, ip, cap, before, now, n - 1);
      SinglesUnlocked(c, cap, n - 1);
      steps := OneRound(c, ip, cap, steps, Waited(c, cap) + Copies(c.lockout, n - 1), now', c.lockout, 1);
      now' := c.lockout;
      CopiesJoin(Waited(c, cap) + Copies(c.lockout, n - 1), c.lockout, 0);
    }
  }

  lemma {:induction false} RepeatedReached(c: Config, ip: string, cap: nat) returns (steps: seq<Step>)
    requires Sane(c) && cap >= 1 && c.lockout >= c.window
    ensures Reachable(c, ip, cap, steps, Poised(ip, Repeated(c, cap), 0, c.lockout))
  {
    var now;
    steps, now := WaitedReached(c, ip, cap);
    steps, now := SinglesReached(c, ip, cap, steps, now, c.maxAttempts - 1);
    SinglesUnlocked(c, cap, c.maxAttempts - 1);
    steps := OneRound(c, ip, cap, steps, Waited(c, cap) + Copies(c.lockout, c.maxAttempts - 1), now, c.lockout, cap);
  }

  lemma {:induction false} CountConcat(a: seq<nat>, b: seq<nat>, lo: int, hi: int)
    ensures CountIn(a + b, lo, hi) == CountIn(a, lo, hi) + CountIn(b, lo, hi)
  {
    if b == [] {
      assert a + b == a;
    } else {
      assert Init(a + b) == a + Init(b);
      CountConcat(a, Init(b), lo, hi);
    }
  }

  lemma {:induction false} CopiesCount(t: nat, n: nat, lo: int, hi: int)
    ensures CountIn(Copies(t, n), lo, hi) == if lo < t <= hi then n else 0
  {
    if lo < t <= hi {
      EverythingCounts(Copies(t, n), lo, hi);
    } else {
      NoneWithin(Copies(t, n), lo, hi);
    }
  }

  lemma {:induction false} RepeatedWithin(c: Config, cap: nat)
    requires Sane(c) && cap >= 1 && c.lockout >= c.window >= 2
    ensures CountIn(Repeated(c, cap), c.lockout - 2, c.lockout - 2 + c.window) == c.maxAttempts + 2 * (cap - 1)
  {
    var l, n, lo, hi := c.lockout, c.maxAttempts - 1, c.lockout - 2, c.lockout - 2 + c.window;
    CountConcat(Copies(0, c.maxAttempts), Copies(l - 1, cap - 1), lo, hi);
    CountConcat(Waited(c, cap), Copies(l, n), lo, hi);
    CountConcat(Waited(c, cap) + Copies(l, n), Copies(l, cap), lo, hi);
    CopiesCount(0, c.maxAttempts, lo, hi);
    CopiesCount(l - 1, cap - 1, lo, hi);
    CopiesCount(l, n, lo, hi);
    CopiesCount(l, cap, lo, hi);
  }

  lemma {:induction false} MostOfShort(c: Config, cap: nat, length: nat)
    requires Sane(c) && c.lockout >= c.window > length >= 1
    ensures Most(c, cap, length) == c.maxAttempts + (cap - 1)
  {
    CeilDivSmall(length, c.window);
    CeilDivSmall(length, c.lockout);
    BudgetIsMaxAttempts(c);
  }

  /**
    The other half of AdmitsAtMost is attained too, wherever a lockout lasts a window at least:
    on a window that begins as a lockout has one instant to go, its cap - 1 drops, the whole
    budget, and the next lockout's cap - 1.
  */
  lemma {:induction false} LockedBoundIsAttained(c: Config, ip: string, cap: nat) returns (steps: seq<Step>, s: State)
    requires Sane(c) && cap >= 1 && c.lockout >= c.window >= 2
    ensures Reachable(c, ip, cap, steps, s)
    ensures var ts, start, end := FailuresOf(s.log, ip), c.lockout - 2, c.lockout - 2 + c.window;
            && Stands(LockoutStarts(c, Counted(c, ts)), c.lockout, 0, start)
            && CountIn(ts, start, end) == cap - 1 + Most(c, cap, Remaining(c.lockout, 0, end))
  {
    steps := RepeatedReached(c, ip, cap);
    s := Poised(ip, Repeated(c, cap), 0, c.lockout);
    LoggedFailures(ip, Repeated(c, cap));
    var ts, h := RepeatedCounts(c, cap);
    RepeatedWithin(c, cap);
    MostOfShort(c, cap, c.window - 1);
  }
}
