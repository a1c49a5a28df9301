/**
  Guessing passwords. Wrong-password requests of one IP, one after another: as many as
  maxAttempts inside one window leave the IP locked by the last of them, exactly when a
  lockout lasts a window or maxAttempts is at most two.
*/
module Guessing {
  import opened Seqs
  import opened RateLimit
  import opened RateLimiter
  import opened Interleaving
  import opened WorstRun

  /** The two clock readings of one request: at the check, and when the failure is recorded. */
  datatype Guess = Guess(checked: nat, recorded: nat)

  /** The IP's recorded failures after one more guess: none is recorded of a refused one. */
  ghost function AfterGuess(c: Config, before: seq<nat>, g: Guess): seq<nat> {
    if LockedAt(c, Counted(c, before), g.checked) then before else before + [g.recorded]
  }

  ghost function Guessed(c: Config, ts: seq<nat>, gs: seq<Guess>): seq<nat> {
    if gs == [] then ts else AfterGuess(c, Guessed(c, ts, Init(gs)), Last(gs))
  }

  /** Each request ends before the next begins. */
  predicate InTurn(now: nat, gs: seq<Guess>) {
    && (forall i :: 0 <= i < |gs| ==> now <= gs[i].checked <= gs[i].recorded)
    && forall i, j :: 0 <= i < j < |gs| ==> gs[i].recorded <= gs[j].checked
  }

  /** When the last guess was answered: refused at its check, or else recorded. */
  ghost function Answered(c: Config, ts: seq<nat>, gs: seq<Guess>): nat
    requires gs != []
  {
    if LockedAt(c, Counted(c, Guessed(c, ts, Init(gs))), Last(gs).checked) then Last(gs).checked else Last(gs).recorded
  }

  predicate Unlocked(c: Config, ts: seq<nat>, now: nat) {
    Sorted(ts) && NoneAfter(ts, now) && SlotAfter(c, ts).lockoutUntil <= now
  }

  lemma {:induction false} InTurnInit(now: nat, gs: seq<Guess>)
    requires InTurn(now, gs) && gs != []
    ensures InTurn(now, Init(gs)) && now <= Last(gs).checked <= Last(gs).recorded
    ensures Init(gs) != [] ==> Init(gs)[0] == gs[0] && Last(Init(gs)).recorded <= Last(gs).checked
  {
  }

  lemma {:induction false} GuessedInOrder(c: Config, ts: seq<nat>, now: nat, gs: seq<Guess>)
    requires Sorted(ts) && NoneAfter(ts, now) && InTurn(now, gs)
    ensures Sorted(Guessed(c, ts, gs)) && NoneAfter(Guessed(c, ts, gs), if gs == [] then now else Last(gs).recorded)
  {
    if gs != [] {
      GuessedInOrder(c, ts, now, Init(gs));
      var before, t := Guessed(c, ts, Init(gs)), Last(gs).recorded;
      assert NoneAfter(before, t);
      SortedExtended(before, t, t);
    }
  }

  // ---------------------------------------------------------------- one guess

  /** Recording into a slot that stands for h, when no lockout holds. */
  lemma {:induction false} RecordLocks(c: Config, s: Slot, h: seq<nat>, t: nat)
    requires Represents(c, s, h, t) && s.lockoutUntil <= t
    ensures Record(c, s, t).lockoutUntil
              == if CountIn(h, t - c.window, t) + 1 >= c.maxAttempts then t + c.lockout else s.lockoutUntil
  {
    RecordedSlot(c, s, h, t, t);
    assert (h + [t])[..|h|] == h;
  }

  /** What a guess at an unlocked IP does: it is counted, and locks if that fills the window. */
  lemma {:induction false} CountedGuess(c: Config, ts: seq<nat>, t: nat)
    requires Unlocked(c, ts, t)
    ensures Counted(c, ts + [t]) == Counted(c, ts) + [t]
    ensures SlotAfter(c, ts + [t]).lockoutUntil
              == if CountIn(Counted(c, ts), t - c.window, t) + 1 >= c.maxAttempts then t + c.lockout
                 else SlotAfter(c, ts).lockoutUntil
  {
    RefusedExactlyWhenLocked(c, ts, t);
    CountedStep(c, ts, t);
    SlotStep(c, ts, t);
    SlotRepresentsHistory(c, ts, t);
    RecordLocks(c, SlotAfter(c, ts), Counted(c, ts), t);
  }

  lemma {:induction false} GuessedStep(c: Config, ts: seq<nat>, gs: seq<Guess>, g: Guess)
    ensures Guessed(c, ts, gs + [g]) == AfterGuess(c, Guessed(c, ts, gs), g)
  {
    assert Init(gs + [g]) == gs;
  }

  lemma {:induction false} RefusedGuess(c: Config, before: seq<nat>, g: Guess)
    requires Sorted(before) && NoneAfter(before, g.checked) && g.checked < SlotAfter(c, before).lockoutUntil
    ensures LockedAt(c, Counted(c, before), g.checked)
  {
    RefusedExactlyWhenLocked(c, before, g.checked);
  }

  lemma {:induction false} AdmittedGuess(c: Config, before: seq<nat>, g: Guess)
    requires Sorted(before) && NoneAfter(before, g.checked) && g.checked >= SlotAfter(c, before).lockoutUntil
    requires g.checked <= g.recorded
    ensures !LockedAt(c, Counted(c, before), g.checked)
    ensures var after := before + [g.recorded];
            && Moves(c, Counted(c, before), SlotAfter(c, before).lockoutUntil, g,
                     Counted(c, after), SlotAfter(c, after).lockoutUntil)
            && (LockedAt(c, Counted(c, after), g.recorded) <==> g.recorded < SlotAfter(c, after).lockoutUntil)
  {
    assert NoneAfter(before, g.recorded);
    RefusedExactlyWhenLocked(c, before, g.checked);
    CountedGuess(c, before, g.recorded);
    SortedExtended(before, g.recorded, g.recorded);
    RefusedExactlyWhenLocked(c, before + [g.recorded], g.recorded);
  }

  /** The counted history and the lockout's end, before and after the last of some guesses. */
  lemma {:induction false} LastGuess(c: Config, ts: seq<nat>, now: nat, gs: seq<Guess>)
    returns (h: seq<nat>, until: int, h': seq<nat>, until': int, answered: nat, locked: bool)
    requires Sorted(ts) && NoneAfter(ts, now) && gs != [] && InTurn(now, gs)
    ensures h == Counted(c, Guessed(c, ts, Init(gs))) && until == SlotAfter(c, Guessed(c, ts, Init(gs))).lockoutUntil
    ensures h' == Counted(c, Guessed(c, ts, gs)) && until' == SlotAfter(c, Guessed(c, ts, gs)).lockoutUntil
    ensures Moves(c, h, until, Last(gs), h', until')
    ensures answered == Answered(c, ts, gs) == if Last(gs).checked < until then Last(gs).checked else Last(gs).recorded
    ensures locked == LockedAt(c, h', answered) && (locked <==> answered < until')
  {
    var before, g := Guessed(c, ts, Init(gs)), Last(gs);
    GuessedInOrder(c, ts, now, Init(gs));
    assert NoneAfter(before, g.checked);
    h, until := Counted(c, before), SlotAfter(c, before).lockoutUntil;
    if g.checked < until {
      RefusedGuess(c, before, g);
      h', until', answered, locked := h, until, g.checked, true;
    } else {
      AdmittedGuess(c, before, g);
      h', until' := Counted(c, before + [g.recorded]), SlotAfter(c, before + [g.recorded]).lockoutUntil;
      answered, locked := g.recorded, g.recorded < until';
    }
  }

  /** Refused while locked; else counted, locking if that fills the window. */
  predicate Moves(c: Config, h: seq<nat>, until: int, g: Guess, h': seq<nat>, until': int) {
    if g.checked < until then h' == h && until' == until
    else
      && h' == h + [g.recorded]
      && until' == if CountIn(h, g.recorded - c.window, g.recorded) + 1 >= c.maxAttempts then g.recorded + c.lockout
                   else until
  }

  // ---------------------------------------------------------------- a burst of them

  /** At least maxAttempts guesses in turn, recorded within less than a window. */
  predicate Burst(c: Config, now: nat, gs: seq<Guess>) {
    && InTurn(now, gs) && |gs| >= 1 && |gs| >= c.maxAttempts
    && Last(gs).recorded - gs[0].recorded < c.window
  }

  /** From an unlocked IP the burst leaves it locked by the time its last guess is answered. */
  ghost predicate Locks(c: Config, ts: seq<nat>, now: nat, gs: seq<Guess>) {
    Unlocked(c, ts, now) && Burst(c, now, gs) ==> LockedAt(c, Counted(c, Guessed(c, ts, gs)), Answered(c, ts, gs))
  }

  function Times(gs: seq<Guess>): seq<nat> {
    if gs == [] then [] else Times(Init(gs)) + [Last(gs).recorded]
  }

  /** From a history h0, every guess so far was counted, and none has locked. */
  predicate AllCounted(c: Config, h0: seq<nat>, h: seq<nat>, until: int, now: nat, gs: seq<Guess>) {
    h == h0 + Times(gs) && until <= now && |gs| < c.maxAttempts
  }

  lemma {:induction false} TimesWithin(gs: seq<Guess>, now: nat, lo: int, hi: int)
    requires InTurn(now, gs) && forall i :: 0 <= i < |gs| ==> lo < gs[i].recorded <= hi
    ensures |Times(gs)| == |gs| && CountIn(Times(gs), lo, hi) == |gs|
  {
    if gs != [] {
      TimesWithin(Init(gs), now, lo, hi);
      assert Init(Times(gs)) == Times(Init(gs));
    }
  }

  lemma {:induction false} EnoughInWindow(h: seq<nat>, gs: seq<Guess>, now: nat, lo: int, hi: int)
    requires InTurn(now, gs) && forall i :: 0 <= i < |gs| ==> lo < gs[i].recorded <= hi
    ensures CountIn(h + Times(gs), lo, hi) >= |gs|
  {
    TimesWithin(gs, now, lo, hi);
    CountConcat(h, Times(gs), lo, hi);
  }

  /** One more guess, after n of them were counted: it is counted too, and locks if it is the last permitted. */
  lemma {:induction false} OneMoreCounted(c: Config, h: seq<nat>, until: int, g: Guess, h': seq<nat>, until': int,
                                          n: nat)
    requires Moves(c, h, until, g, h', until') && until <= g.checked && n < c.maxAttempts
    requires CountIn(h, g.recorded - c.window, g.recorded) >= n
    ensures h' == h + [g.recorded]
    ensures until' == g.recorded + c.lockout || (until' == until && n + 1 < c.maxAttempts)
  {
  }

  lemma {:induction false} CountedOrLocks(c: Config, h0: seq<nat>, h: seq<nat>, until: int, now: nat, gs: seq<Guess>,
                                          h': seq<nat>, until': int)
    requires gs != [] && InTurn(now, gs) && Last(gs).recorded - gs[0].recorded < c.window
    requires AllCounted(c, h0, h, until, now, Init(gs)) && Moves(c, h, until, Last(gs), h', until')
    ensures AllCounted(c, h0, h', until', now, gs) || until' == Last(gs).recorded + c.lockout
  {
    EnoughInWindow(h0, Init(gs), now, Last(gs).recorded - c.window, Last(gs).recorded);
    OneMoreCounted(c, h, until, Last(gs), h', until', |gs| - 1);
    assert h0 + Times(Init(gs)) + [Last(gs).recorded] == h0 + Times(gs);
  }

  /** Either every guess was counted, or a lockout that began no earlier than the first of them is the latest. */
  lemma {:induction false} CountedOrLocked(c: Config, ts: seq<nat>, now: nat, gs: seq<Guess>)
    returns (h: seq<nat>, until: int)
    requires Sane(c) && Unlocked(c, ts, now) && InTurn(now, gs)
    requires gs != [] ==> Last(gs).recorded - gs[0].recorded < c.window
    ensures h == Counted(c, Guessed(c, ts, gs)) && until == SlotAfter(c, Guessed(c, ts, gs)).lockoutUntil
    ensures || AllCounted(c, Counted(c, ts), h, until, now, gs)
            || (gs != [] && until >= gs[0].recorded + c.lockout)
  {
    h, until := Counted(c, ts), SlotAfter(c, ts).lockoutUntil;
    if gs == [] {
      assert h + [] == h;
    } else {
      var was, wasUntil := CountedOrLocked(c, ts, now, Init(gs));
      var answered, locked;
      was, wasUntil, h, until, answered, locked := LastGuess(c, ts, now, gs);
      if AllCounted(c, Counted(c, ts), was, wasUntil, now, Init(gs)) {
        CountedOrLocks(c, Counted(c, ts), was, wasUntil, now, gs, h, until);
      }
    }
  }

  /** Where a lockout lasts a window, a burst locks. */
  lemma {:induction false} LongLockoutLocks(c: Config, ts: seq<nat>, now: nat, gs: seq<Guess>)
    requires Sane(c) && c.lockout >= c.window
    ensures Locks(c, ts, now, gs)
  {
    if Unlocked(c, ts, now) && Burst(c, now, gs) {
      var h, until := CountedOrLocked(c, ts, now, gs);
      var was, wasUntil, h', until', answered, locked := LastGuess(c, ts, now, gs);
    }
  }

  // ---------------------------------------------------------------- two attempts

  lemma {:induction false} MemberCounts(ts: seq<nat>, t: nat, lo: int, hi: int)
    requires t in ts && lo < t <= hi
    ensures CountIn(ts, lo, hi) >= 1
  {
    if t in Init(ts) {
      MemberCounts(Init(ts), t, lo, hi);
    }
  }

  /** The first guess at an unlocked IP is in the history for good. */
  lemma {:induction false} FirstStays(c: Config, ts: seq<nat>, now: nat, gs: seq<Guess>)
    requires Unlocked(c, ts, now) && gs != [] && InTurn(now, gs)
    ensures gs[0].recorded in Counted(c, Guessed(c, ts, gs))
  {
    var h, until, h', until', answered, locked := LastGuess(c, ts, now, gs);
    if |gs| > 1 {
      FirstStays(c, ts, now, Init(gs));
    }
  }

  /** So with two attempts permitted, the last guess of several fills the window. */
  lemma {:induction false} FirstCounts(c: Config, ts: seq<nat>, now: nat, gs: seq<Guess>, t: nat)
    requires Unlocked(c, ts, now) && |gs| >= 2 && InTurn(now, gs)
    requires t == Last(gs).recorded && t - gs[0].recorded < c.window
    ensures CountIn(Counted(c, Guessed(c, ts, Init(gs))), t - c.window, t) >= 1
  {
    FirstBeforeLast(now, gs);
    FirstStays(c, ts, now, Init(gs));
    MemberCounts(Counted(c, Guessed(c, ts, Init(gs))), gs[0].recorded, t - c.window, t);
  }

  lemma {:induction false} FirstBeforeLast(now: nat, gs: seq<Guess>)
    requires InTurn(now, gs) && |gs| >= 2
    ensures InTurn(now, Init(gs)) && Init(gs) != [] && Init(gs)[0] == gs[0]
    ensures gs[0].recorded <= Last(gs).recorded
  {
    InTurnInit(now, gs);
  }

  lemma {:induction false} TwoAttempts(c: Config, ts: seq<nat>, now: nat, gs: seq<Guess>)
    requires Sane(c) && c.maxAttempts <= 2 && Unlocked(c, ts, now) && Burst(c, now, gs)
    ensures LockedAt(c, Counted(c, Guessed(c, ts, gs)), Answered(c, ts, gs))
  {
    if c.maxAttempts == 2 {
      FirstCounts(c, ts, now, gs, Last(gs).recorded);
    }
    LockedIfFull(c, ts, now, gs, Last(gs).recorded);
  }

  lemma {:induction false} LockedIfFull(c: Config, ts: seq<nat>, now: nat, gs: seq<Guess>, t: nat)
    requires c.lockout > 0 && Sorted(ts) && NoneAfter(ts, now) && gs != [] && InTurn(now, gs) && t == Last(gs).recorded
    requires CountIn(Counted(c, Guessed(c, ts, Init(gs))), t - c.window, t) + 1 >= c.maxAttempts
    ensures LockedAt(c, Counted(c, Guessed(c, ts, gs)), Answered(c, ts, gs))
  {
    var h, until, h', until', answered, locked := LastGuess(c, ts, now, gs);
    FillingLocks(c, h, until, Last(gs), h', until', answered);
  }

  /** With at most two attempts permitted, a burst locks however short a lockout is. */
  lemma {:induction false} TwoAttemptsLock(c: Config, ts: seq<nat>, now: nat, gs: seq<Guess>)
    requires Sane(c) && c.maxAttempts <= 2
    ensures Locks(c, ts, now, gs)
  {
    if Unlocked(c, ts, now) && Burst(c, now, gs) {
      TwoAttempts(c, ts, now, gs);
    }
  }

  lemma {:induction false} FillingLocks(c: Config, h: seq<nat>, until: int, g: Guess, h': seq<nat>, until': int,
                                        answered: nat)
    requires Moves(c, h, until, g, h', until') && c.lockout > 0
    requires CountIn(h, g.recorded - c.window, g.recorded) + 1 >= c.maxAttempts
    requires answered == if g.checked < until then g.checked else g.recorded
    ensures answered < until'
  {
  }

  // ---------------------------------------------------------------- and otherwise not

  /** One guess that locks, the guesses that lockout swallows, and one as it ends. */
  function Straddling(t: nat, n: nat, u: nat): seq<Guess> {
    seq(n, i => Guess(t, t)) + [Guess(u, u)]
  }

  lemma {:induction false} StraddlingParts(t: nat, n: nat, u: nat)
    ensures var gs := Straddling(t, n, u);
            && |gs| == n + 1 && Last(gs) == Guess(u, u) && gs == Init(gs) + [Guess(u, u)]
            && forall i :: 0 <= i < n ==> gs[i] == Init(gs)[i] == Guess(t, t)
  {
  }

  lemma {:induction false} StraddlingIsBurst(c: Config, t: nat, n: nat, u: nat)
    requires c.maxAttempts - 1 <= n && n > 0 && t <= u < t + c.window
    ensures Burst(c, t, Straddling(t, n, u))
  {
    StraddlingParts(t, n, u);
  }

  /** After the old failures one more is counted, and locks. */
  lemma {:induction false} OneLocks(c: Config, ts: seq<nat>, t: nat)
    requires Sane(c) && t < c.window && Stage(c, ts, ts, [], 0, 0) && |ts| + 1 >= c.maxAttempts
    ensures Counted(c, ts + [t]) == ts + [t] && Unlocked(c, ts + [t], t + c.lockout)
    ensures !LockedAt(c, Counted(c, ts), t) && LockedAt(c, Counted(c, ts + [t]), t)
  {
    CountOne(c, ts, ts, [], 0, 0, t);
    LocksThere(c, ts, t);
  }

  /** The first of several guesses at one time locks, and the others are refused. */
  lemma {:induction false} Swallowed(c: Config, ts: seq<nat>, t: nat, gs: seq<Guess>)
    requires !LockedAt(c, Counted(c, ts), t) && LockedAt(c, Counted(c, ts + [t]), t)
    requires gs != [] && forall i :: 0 <= i < |gs| ==> gs[i] == Guess(t, t)
    ensures Guessed(c, ts, gs) == ts + [t]
  {
    if |gs| == 1 {
      assert Init(gs) == [];
    } else {
      Swallowed(c, ts, t, Init(gs));
    }
  }

  lemma {:induction false} LocksThere(c: Config, ts: seq<nat>, t: nat)
    requires Sorted(ts) && NoneAfter(ts, t) && SlotAfter(c, ts).lockoutUntil <= t && Sane(c)
    requires Sorted(ts + [t]) && NoneAfter(ts + [t], t) && SlotAfter(c, ts + [t]).lockoutUntil == t + c.lockout
    ensures !LockedAt(c, Counted(c, ts), t) && LockedAt(c, Counted(c, ts + [t]), t)
    ensures Unlocked(c, ts + [t], t + c.lockout)
  {
    RefusedExactlyWhenLocked(c, ts, t);
    RefusedExactlyWhenLocked(c, ts + [t], t);
    assert NoneAfter(ts + [t], t + c.lockout);
  }

  /** At the lockout's end the old failures have aged out, and one guess more does not lock. */
  lemma {:induction false} OneMoreIsFree(c: Config, aged: seq<nat>, t: nat, u: nat)
    requires Sane(c) && c.maxAttempts >= 3 && Unlocked(c, aged + [t], u) && Counted(c, aged + [t]) == aged + [t]
    requires forall x :: x in aged ==> x <= u - c.window
    ensures !LockedAt(c, Counted(c, aged + [t]), u) && !LockedAt(c, Counted(c, aged + [t] + [u]), u)
  {
    RefusedExactlyWhenLocked(c, aged + [t], u);
    CountedGuess(c, aged + [t], u);
    FewWithin(aged, t, u - c.window, u);
    SortedExtended(aged + [t], u, u);
    RefusedExactlyWhenLocked(c, aged + [t] + [u], u);
  }

  lemma {:induction false} FewWithin(aged: seq<nat>, t: nat, lo: int, hi: int)
    requires forall x :: x in aged ==> x <= lo
    ensures CountIn(aged + [t], lo, hi) <= 1
  {
    NoneWithin(aged, lo, hi);
    CountStep(aged, t, lo, hi);
  }

  /** Guesses at t after failures that make the first of them lock, then one as that lockout ends. */
  lemma {:induction false} StraddlesAfter(c: Config, ts: seq<nat>, t: nat, gs: seq<Guess>, u: nat)
    requires Sane(c) && c.maxAttempts >= 3 && forall x :: x in ts ==> x <= u - c.window
    requires Counted(c, ts + [t]) == ts + [t] && Unlocked(c, ts + [t], u)
    requires !LockedAt(c, Counted(c, ts), t) && LockedAt(c, Counted(c, ts + [t]), t)
    requires gs != [] && forall i :: 0 <= i < |gs| ==> gs[i] == Guess(t, t)
    ensures !LockedAt(c, Counted(c, Guessed(c, ts, gs)), u)
    ensures !LockedAt(c, Counted(c, Guessed(c, ts, gs + [Guess(u, u)])), u)
  {
    Swallowed(c, ts, t, gs);
    OneMoreIsFree(c, ts, t, u);
    GuessedStep(c, ts, gs, Guess(u, u));
  }

  /** After old failures, a burst whose second guess and those after it a short lockout swallows. */
  lemma {:induction false} StraddlingDoesNotLock(c: Config) returns (ts: seq<nat>, now: nat, gs: seq<Guess>)
    requires Sane(c) && c.maxAttempts >= 3 && c.lockout < c.window
    ensures !Locks(c, ts, now, gs)
  {
    ts, now := Copies(0, c.maxAttempts - 1), c.window - 1;
    var u := now + c.lockout;
    gs := Straddling(now, c.maxAttempts - 1, u);
    StraddlingIsBurst(c, now, c.maxAttempts - 1, u);
    StraddlingParts(now, c.maxAttempts - 1, u);
    StraddlingHolds(c, ts, now, u, Init(gs));
    NotAfterTheLast(c, ts, now, gs, u);
  }

  lemma {:induction false} NotAfterTheLast(c: Config, ts: seq<nat>, now: nat, gs: seq<Guess>, u: nat)
    requires Unlocked(c, ts, now) && Burst(c, now, gs) && Last(gs) == Guess(u, u)
    requires !LockedAt(c, Counted(c, Guessed(c, ts, gs)), u)
    ensures !Locks(c, ts, now, gs)
  {
  }

  lemma {:induction false} StraddlingHolds(c: Config, ts: seq<nat>, t: nat, u: nat, gs: seq<Guess>)
    requires Sane(c) && c.maxAttempts >= 3 && c.lockout < c.window && ts == Copies(0, c.maxAttempts - 1)
    requires t == c.window - 1 && u == t + c.lockout
    requires gs != [] && forall i :: 0 <= i < |gs| ==> gs[i] == Guess(t, t)
    ensures Unlocked(c, ts, t) && !LockedAt(c, Counted(c, Guessed(c, ts, gs + [Guess(u, u)])), u)
  {
    PreludeCounts(c, c.maxAttempts - 1);
    OneLocks(c, ts, t);
    StraddlesAfter(c, ts, t, gs, u);
  }

  /**
    As many guesses as maxAttempts inside one window, from an IP that is not locked, always
    leave it locked by the time the last is answered, exactly when a lockout lasts a window or
    at most two attempts are permitted.
  */
  lemma {:induction false} GuessesLockIff(c: Config)
    requires Sane(c)
    ensures (forall ts, now, gs :: Locks(c, ts, now, gs)) <==> c.lockout >= c.window || c.maxAttempts <= 2
  {
    if c.lockout >= c.window || c.maxAttempts <= 2 {
      forall ts, now, gs ensures Locks(c, ts, now, gs) {
        if c.lockout >= c.window {
          LongLockoutLocks(c, ts, now, gs);
        } else {
          TwoAttemptsLock(c, ts, now, gs);
        }
      }
    } else {
      var ts, now, gs := StraddlingDoesNotLock(c);
    }
  }

  // ---------------------------------------------------------------- at the proxy

  function LatestOf(now: nat, gs: seq<Guess>): nat {
    if gs == [] then now else Last(gs).recorded
  }

  lemma {:induction false} ReachedLater(log: seq<Failure>, now: nat, later: nat)
    requires Reached(log, now) && now <= later
    ensures Reached(log, later)
  {
  }

  /** One wrong password. */
  method ServeGuess(limiter: RateLimiter, ip: string, g: Guess, password: string) returns (status: int)
    requires limiter.Valid() && Reached(limiter.log, g.checked) && g.checked <= g.recorded
    modifies limiter.Repr
    ensures limiter.Valid() && fresh(limiter.Repr - old(limiter.Repr))
    ensures Reached(limiter.log, g.recorded) && status in {401, 429}
    ensures FailuresOf(limiter.log, ip) == AfterGuess(limiter.config, FailuresOf(old(limiter.log), ip), g)
  {
    FailuresOfAppend(limiter.log, Failure(ip, g.recorded), ip);
    var wait;
    status, wait := Serve(limiter, ip, Basic("user", password), Rejected, g.checked, g.recorded);
  }

  /** Wrong passwords from one IP, one request after another: each is refused, or answered 401 and recorded. */
  method ServeGuesses(limiter: RateLimiter, ip: string, gs: seq<Guess>, password: string, ghost now: nat)
    returns (statuses: seq<int>)
    requires limiter.Valid() && Reached(limiter.log, now) && InTurn(now, gs)
    modifies limiter.Repr
    ensures limiter.Valid() && fresh(limiter.Repr - old(limiter.Repr))
    ensures FailuresOf(limiter.log, ip) == Guessed(limiter.config, FailuresOf(old(limiter.log), ip), gs)
    ensures |statuses| == |gs| && OnlyRefusals(statuses) && Reached(limiter.log, LatestOf(now, gs))
    decreases gs
  {
    if gs == [] {
      return [];
    }
    InTurnInit(now, gs);
    statuses := ServeGuesses(limiter, ip, Init(gs), password, now);
    ReachedLater(limiter.log, LatestOf(now, Init(gs)), Last(gs).checked);
    var status := ServeGuess(limiter, ip, Last(gs), password);
    OneMoreRefusal(statuses, status);
    statuses := statuses + [status];
  }

  predicate OnlyRefusals(statuses: seq<int>) {
    forall i :: 0 <= i < |statuses| ==> statuses[i] in {401, 429}
  }

  lemma {:induction false} OneMoreRefusal(statuses: seq<int>, status: int)
    requires OnlyRefusals(statuses) && status in {401, 429}
    ensures OnlyRefusals(statuses + [status])
  {
  }

  /** So a burst from an unlocked IP leaves it refused, where a lockout lasts a window or two attempts are permitted. */
  method ServeBurst(limiter: RateLimiter, ip: string, gs: seq<Guess>, password: string, ghost now: nat)
    returns (statuses: seq<int>)
    requires limiter.Valid() && Reached(limiter.log, now) && Sane(limiter.config) && Burst(limiter.config, now, gs)
    requires !Refused(limiter.config, limiter.log, ip, now)
    modifies limiter.Repr
    ensures limiter.Valid() && fresh(limiter.Repr - old(limiter.Repr))
    ensures |statuses| == |gs| && OnlyRefusals(statuses)
    ensures limiter.config.lockout >= limiter.config.window || limiter.config.maxAttempts <= 2 ==>
              Refused(limiter.config, limiter.log, ip,
                      Answered(limiter.config, FailuresOf(old(limiter.log), ip), gs))
  {
    ghost var was := FailuresOf(limiter.log, ip);
    ProjectionIsOrdered(limiter.log, ip, now);
    RefusedExactlyWhenLocked(limiter.config, was, now);
    statuses := ServeGuesses(limiter, ip, gs, password, now);
    if limiter.config.lockout >= limiter.config.window {
      LongLockoutLocks(limiter.config, was, now, gs);
    } else if limiter.config.maxAttempts <= 2 {
      TwoAttemptsLock(limiter.config, was, now, gs);
    }
  }
}
