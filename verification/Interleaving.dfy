/**
  Requests in flight together. The check and the record are two critical sections with
  a directory bind between them, so failures admitted before a lockout may be recorded
  during it, where the limiter drops them. Any number of IPs and requests interleave.
*/
module Interleaving {
  import opened Seqs
  import opened RateLimit
  import opened RateLimiter

  datatype Phase = Binding | Recording

  datatype Flight = Flight(ip: string, phase: Phase)

  datatype State = State(log: seq<Failure>, flight: map<nat, Flight>, now: nat)

  datatype Step =
    | Check(id: nat, ip: string, at: nat)
    | Answer(id: nat, unauthorized: bool)
    | Settle(id: nat, at: nat)

  const START := State([], map[], 0)

  predicate Enabled(s: State, step: Step) {
    match step
    case Check(id, _, at) => id !in s.flight && s.now <= at
    case Answer(id, _) => id in s.flight && s.flight[id].phase == Binding
    case Settle(id, at) => id in s.flight && s.flight[id].phase == Recording && s.now <= at
  }

  function Next(c: Config, s: State, step: Step): State
    requires Enabled(s, step)
  {
    match step
    case Check(id, ip, at) =>
      if at < SlotAfter(c, FailuresOf(s.log, ip)).lockoutUntil then s.(now := at)
      else s.(now := at, flight := s.flight[id := Flight(ip, Binding)])
    case Answer(id, unauthorized) =>
      if unauthorized then s.(flight := s.flight[id := s.flight[id].(phase := Recording)])
      else s.(flight := s.flight - {id})
    case Settle(id, at) =>
      State(s.log + [Failure(s.flight[id].ip, at)], s.flight - {id}, at)
  }

  function InFlight(s: State, ip: string): set<nat> {
    set id | id in s.flight && s.flight[id].ip == ip
  }

  /** States of a run in which at most `cap` requests of `ip` are ever in flight. */
  ghost predicate Reachable(c: Config, ip: string, cap: nat, steps: seq<Step>, s: State) {
    && |InFlight(s, ip)| <= cap
    && if steps == [] then s == START
       else exists before ::
         && Reachable(c, ip, cap, Init(steps), before)
         && Enabled(before, Last(steps)) && s == Next(c, before, Last(steps))
  }

  /** When a history's lockouts started. */
  function LockoutStarts(c: Config, h: seq<nat>): seq<nat> {
    if h == [] then []
    else LockoutStarts(c, Init(h)) + if Triggers(c, h, |h| - 1) then [Last(h)] else []
  }

  /** How many of a history's lockouts hold some instant of the half-open interval (lo, hi]. */
  function LockoutsIn(c: Config, h: seq<nat>, lo: int, hi: int): nat {
    CountIn(LockoutStarts(c, h), lo + 1 - c.lockout, hi)
  }

  // ---------------------------------------------------------------- the invariant

  /** `got` failures of an interval against `counted` of them and k for each of its lockouts. */
  predicate Within(k: int, got: int, counted: int, lockouts: int, open: bool, flying: int) {
    got <= counted + k * lockouts && (open ==> got + flying <= counted + k * lockouts)
  }

  /** The lockout that stands now can still drop failures of the interval (lo, hi]. */
  predicate Open(now: nat, until: int, lo: int, hi: int) {
    now < until && now <= hi && lo + 1 < until
  }

  /**
    Failures of the interval that were dropped are at most cap - 1 for each lockout meeting
    it; while one stands that still can drop some there, the requests in flight are among them.
  */
  ghost predicate Bounded(c: Config, ts: seq<nat>, now: nat, lo: int, hi: int, cap: nat, flying: nat) {
    var h := Counted(c, ts);
    BoundedBy(ts, h, LockoutStarts(c, h), c.lockout, now, SlotAfter(c, ts).lockoutUntil, lo, hi, cap - 1, flying)
  }

  predicate BoundedBy(ts: seq<nat>, h: seq<nat>, starts: seq<nat>, lockout: int, now: nat, until: int,
                      lo: int, hi: int, k: int, flying: int)
  {
    Within(k, CountIn(ts, lo, hi), CountIn(h, lo, hi), CountIn(starts, lo + 1 - lockout, hi),
           Open(now, until, lo, hi), flying)
  }

  lemma {:induction false} DroppedKeeps(k: int, got: int, counted: int, lockouts: int, open: bool, flying: int,
                                        inside: bool, open': bool)
    requires Within(k, got, counted, lockouts, open, flying) && flying >= 1 && (inside || open' ==> open)
    ensures Within(k, got + (if inside then 1 else 0), counted, lockouts, open', flying - 1)
  {
  }

  lemma {:induction false} CountedKeeps(k: int, got: int, counted: int, lockouts: int, open: bool, flying: int,
                                        inside: int)
    requires Within(k, got, counted, lockouts, open, flying)
    ensures Within(k, got + inside, counted + inside, lockouts, false, flying - 1)
  {
  }

  lemma {:induction false} LockingKeeps(k: int, got: int, counted: int, lockouts: int, open: bool, flying: int,
                                        inside: int, open': bool, touches: bool)
    requires Within(k, got, counted, lockouts, open, flying) && 1 <= flying <= k + 1 && (open' ==> touches)
    ensures Within(k, got + inside, counted + inside, lockouts + (if touches then 1 else 0), open', flying - 1)
  {
    OneMore(k, lockouts);
  }

  ghost predicate DropsBounded(c: Config, s: State, ip: string, lo: int, hi: int, cap: nat) {
    && Ordered(s.log) && Reached(s.log, s.now)
    && Bounded(c, FailuresOf(s.log, ip), s.now, lo, hi, cap, |InFlight(s, ip)|)
  }

  lemma {:induction false} CheckKeepsBound(c: Config, s: State, ip: string, lo: int, hi: int, cap: nat, step: Step)
    requires DropsBounded(c, s, ip, lo, hi, cap) && step.Check? && Enabled(s, step)
    ensures DropsBounded(c, Next(c, s, step), ip, lo, hi, cap)
  {
    var s' := Next(c, s, step);
    if step.ip != ip {
      assert InFlight(s', ip) == InFlight(s, ip);
    }
  }

  lemma {:induction false} AnswerKeepsBound(c: Config, s: State, ip: string, lo: int, hi: int, cap: nat, step: Step)
    requires DropsBounded(c, s, ip, lo, hi, cap) && step.Answer? && Enabled(s, step)
    ensures DropsBounded(c, Next(c, s, step), ip, lo, hi, cap)
  {
    var s' := Next(c, s, step);
    if step.unauthorized {
      assert InFlight(s', ip) == InFlight(s, ip);
    } else {
      assert InFlight(s', ip) == InFlight(s, ip) - {step.id};
    }
  }

  lemma {:induction false} SettleKeepsBound(c: Config, s: State, ip: string, lo: int, hi: int, cap: nat, step: Step)
    requires DropsBounded(c, s, ip, lo, hi, cap) && step.Settle? && Enabled(s, step)
    requires |InFlight(s, ip)| <= cap
    ensures DropsBounded(c, Next(c, s, step), ip, lo, hi, cap)
  {
    var f := Failure(s.flight[step.id].ip, step.at);
    SettleLands(c, s, ip, step);
    FailuresOfAppend(s.log, f, ip);
    if f.ip == ip {
      ProjectionIsOrdered(s.log, ip, step.at);
      FailureKeepsBound(c, FailuresOf(s.log, ip), s.now, step.at, lo, hi, cap, |InFlight(s, ip)|);
    } else {
      OthersKeepBound(c, FailuresOf(s.log, ip), s.now, step.at, lo, hi, cap, |InFlight(s, ip)|);
    }
  }

  lemma {:induction false} SettleLands(c: Config, s: State, ip: string, step: Step)
    requires step.Settle? && Enabled(s, step) && Ordered(s.log) && Reached(s.log, s.now)
    ensures var s', f := Next(c, s, step), Failure(s.flight[step.id].ip, step.at);
            && s'.log == s.log + [f] && s'.now == step.at && Ordered(s'.log) && Reached(s'.log, s'.now)
            && |InFlight(s', ip)| == |InFlight(s, ip)| - if f.ip == ip then 1 else 0
  {
    var s' := Next(c, s, step);
    assert InFlight(s', ip) == InFlight(s, ip) - {step.id};
    assert step.id in InFlight(s, ip) <==> s.flight[step.id].ip == ip;
  }

  lemma {:induction false} OthersKeepBound(c: Config, ts: seq<nat>, now: nat, t: nat, lo: int, hi: int,
                                           cap: nat, flying: nat)
    requires now <= t && Bounded(c, ts, now, lo, hi, cap, flying)
    ensures Bounded(c, ts, t, lo, hi, cap, flying)
  {
  }

  lemma {:induction false} FailureKeepsBound(c: Config, ts: seq<nat>, now: nat, t: nat, lo: int, hi: int,
                                             cap: nat, flying: nat)
    requires Sorted(ts) && NoneAfter(ts, t) && now <= t && 1 <= flying <= cap
    requires Bounded(c, ts, now, lo, hi, cap, flying)
    ensures Bounded(c, ts + [t], t, lo, hi, cap, flying - 1)
  {
    var h, h' := Counted(c, ts), Counted(c, ts + [t]);
    FailureAccounted(c, ts, t);
    AccountedKeepsBound(ts, h, LockoutStarts(c, h), c.lockout, now, SlotAfter(c, ts).lockoutUntil, t,
                        h', LockoutStarts(c, h'), SlotAfter(c, ts + [t]).lockoutUntil, lo, hi, cap - 1, flying);
  }

  /** What happens to a failure: dropped, counted, or counted with a lockout. */
  predicate Accounted(h: seq<nat>, starts: seq<nat>, lockout: int, until: int, t: nat,
                      h': seq<nat>, starts': seq<nat>, until': int)
  {
    if t < until then h' == h && starts' == starts && until' == until
    else
      && h' == h + [t]
      && ((starts' == starts && until' <= t) || (starts' == starts + [t] && until' == t + lockout))
  }

  lemma {:induction false} AccountedKeepsBound(ts: seq<nat>, h: seq<nat>, starts: seq<nat>, lockout: int,
                                               now: nat, until: int, t: nat,
                                               h': seq<nat>, starts': seq<nat>, until': int,
                                               lo: int, hi: int, k: int, flying: int)
    requires BoundedBy(ts, h, starts, lockout, now, until, lo, hi, k, flying)
    requires now <= t && 1 <= flying <= k + 1 && Accounted(h, starts, lockout, until, t, h', starts', until')
    ensures BoundedBy(ts + [t], h', starts', lockout, t, until', lo, hi, k, flying - 1)
  {
    var got, counted, lockouts := CountIn(ts, lo, hi), CountIn(h, lo, hi), CountIn(starts, lo + 1 - lockout, hi);
    CountStep(ts, t, lo, hi);
    if t < until {
      DroppedKeeps(k, got, counted, lockouts, Open(now, until, lo, hi), flying, lo < t <= hi, Open(t, until, lo, hi));
    } else {
      CountStep(h, t, lo, hi);
      var inside := if lo < t <= hi then 1 else 0;
      if starts' == starts && until' <= t {
        CountedKeeps(k, got, counted, lockouts, Open(now, until, lo, hi), flying, inside);
      } else {
        LockingBound(starts, lockout, now, until, t, until', lo, hi, k, got, counted, flying, inside);
      }
    }
  }

  lemma {:induction false} LockingBound(starts: seq<nat>, lockout: int, now: nat, until: int, t: nat, until': int,
                                        lo: int, hi: int, k: int, got: int, counted: int, flying: int, inside: int)
    requires Within(k, got, counted, CountIn(starts, lo + 1 - lockout, hi), Open(now, until, lo, hi), flying)
    requires 1 <= flying <= k + 1 && until' == t + lockout
    ensures Within(k, got + inside, counted + inside, CountIn(starts + [t], lo + 1 - lockout, hi),
                   Open(t, until', lo, hi), flying - 1)
  {
    CountStep(starts, t, lo + 1 - lockout, hi);
    LockingKeeps(k, got, counted, CountIn(starts, lo + 1 - lockout, hi), Open(now, until, lo, hi), flying, inside,
                 Open(t, until', lo, hi), lo + 1 - lockout < t <= hi);
  }

  lemma {:induction false} CountStep(ts: seq<nat>, t: nat, lo: int, hi: int)
    ensures CountIn(ts + [t], lo, hi) == CountIn(ts, lo, hi) + if lo < t <= hi then 1 else 0
  {
    assert Init(ts + [t]) == ts;
  }

  lemma {:induction false} StoredTriggerIsTrigger(c: Config, ts: seq<nat>, t: nat)
    requires Sorted(ts) && NoneAfter(ts, t) && t >= SlotAfter(c, ts).lockoutUntil
    ensures SlotAfter(c, ts + [t]).lockoutUntil
              == if Triggers(c, Counted(c, ts) + [t], |Counted(c, ts)|) then t + c.lockout
                 else SlotAfter(c, ts).lockoutUntil
  {
    SlotStep(c, ts, t);
    SlotRepresentsHistory(c, ts, t);
    RecordedSlot(c, SlotAfter(c, ts), Counted(c, ts), t, t);
  }

  lemma {:induction false} StartsStep(c: Config, h: seq<nat>, t: nat)
    ensures LockoutStarts(c, h + [t]) == LockoutStarts(c, h) + if Triggers(c, h + [t], |h|) then [t] else []
  {
    assert Init(h + [t]) == h;
  }

  /**
    A recorded failure is dropped and changes nothing; or counted, with no lockout standing
    afterwards; or counted, starting exactly one lockout.
  */
  lemma {:induction false} FailureAccounted(c: Config, ts: seq<nat>, t: nat)
    requires Sorted(ts) && NoneAfter(ts, t)
    ensures var h, h' := Counted(c, ts), Counted(c, ts + [t]);
            Accounted(h, LockoutStarts(c, h), c.lockout, SlotAfter(c, ts).lockoutUntil, t,
                      h', LockoutStarts(c, h'), SlotAfter(c, ts + [t]).lockoutUntil)
    ensures t < SlotAfter(c, ts).lockoutUntil ==> SlotAfter(c, ts + [t]) == SlotAfter(c, ts)
  {
    RefusedExactlyWhenLocked(c, ts, t);
    CountedStep(c, ts, t);
    if t < SlotAfter(c, ts).lockoutUntil {
      SlotStep(c, ts, t);
    } else {
      StoredTriggerIsTrigger(c, ts, t);
      StartsStep(c, Counted(c, ts), t);
    }
  }

  lemma {:induction false} ReachableIsBounded(c: Config, ip: string, lo: int, hi: int, cap: nat,
                                              steps: seq<Step>, s: State)
    requires Reachable(c, ip, cap, steps, s)
    ensures DropsBounded(c, s, ip, lo, hi, cap)
  {
    if steps == [] {
      assert FailuresOf([], ip) == [];
    } else {
      var before :| Reachable(c, ip, cap, Init(steps), before)
        && Enabled(before, Last(steps)) && s == Next(c, before, Last(steps));
      ReachableIsBounded(c, ip, lo, hi, cap, Init(steps), before);
      match Last(steps)
      case Check(_, _, _) => CheckKeepsBound(c, before, ip, lo, hi, cap, Last(steps));
      case Answer(_, _) => AnswerKeepsBound(c, before, ip, lo, hi, cap, Last(steps));
      case Settle(_, _) => SettleKeepsBound(c, before, ip, lo, hi, cap, Last(steps));
    }
  }

  // ---------------------------------------------------------------- over whole runs

  lemma {:induction false} EverythingCounts(ts: seq<nat>, lo: int, hi: int)
    requires forall t :: t in ts ==> lo < t <= hi
    ensures CountIn(ts, lo, hi) == |ts|
  {
    if ts != [] {
      assert Last(ts) in ts && forall t :: t in Init(ts) ==> t in ts;
      EverythingCounts(Init(ts), lo, hi);
    }
  }

  lemma {:induction false} StartsAreEntries(c: Config, h: seq<nat>)
    ensures forall t :: t in LockoutStarts(c, h) ==> t in h
  {
    if h != [] {
      StartsAreEntries(c, Init(h));
    }
  }

  lemma {:induction false} CountedAreAttempts(c: Config, ts: seq<nat>)
    ensures forall t :: t in Counted(c, ts) ==> t in ts
  {
    if ts != [] {
      CountedAreAttempts(c, Init(ts));
    }
  }

  /**
    However requests interleave, the failures an IP gets in are those its history counts,
    plus at most cap - 1 for each lockout; one request at a time loses none.
  */
  lemma {:induction false} AdmittedFailuresBounded(c: Config, ip: string, cap: nat, steps: seq<Step>, s: State)
    requires Reachable(c, ip, cap, steps, s)
    ensures var ts := FailuresOf(s.log, ip);
            |ts| <= |Counted(c, ts)| + (cap - 1) * |LockoutStarts(c, Counted(c, ts))|
    ensures cap == 1 ==> |FailuresOf(s.log, ip)| <= |Counted(c, FailuresOf(s.log, ip))|
  {
    var lo := if c.lockout <= 0 then c.lockout - 2 else -1;
    ReachableIsBounded(c, ip, lo, s.now, cap, steps, s);
    BoundedState(c, s, ip, lo, cap);
  }

  lemma {:induction false} BoundedState(c: Config, s: State, ip: string, lo: int, cap: nat)
    requires DropsBounded(c, s, ip, lo, s.now, cap) && lo < 0 && lo + 1 < c.lockout
    ensures var ts := FailuresOf(s.log, ip);
            && |ts| <= |Counted(c, ts)| + (cap - 1) * |LockoutStarts(c, Counted(c, ts))|
            && (cap == 1 ==> |ts| <= |Counted(c, ts)|)
  {
    ProjectionIsOrdered(s.log, ip, s.now);
    BoundedThroughout(c, FailuresOf(s.log, ip), s.now, lo, cap, |InFlight(s, ip)|);
  }

  lemma {:induction false} BoundedThroughout(c: Config, ts: seq<nat>, now: nat, lo: int, cap: nat, flying: nat)
    requires Bounded(c, ts, now, lo, now, cap, flying) && NoneAfter(ts, now) && lo < 0 && lo + 1 < c.lockout
    ensures |ts| <= |Counted(c, ts)| + (cap - 1) * |LockoutStarts(c, Counted(c, ts))|
    ensures cap == 1 ==> |ts| <= |Counted(c, ts)|
  {
    var h := Counted(c, ts);
    CountedAreAttempts(c, ts);
    StartsAreEntries(c, h);
    EverythingBounded(ts, h, LockoutStarts(c, h), c.lockout, now, SlotAfter(c, ts).lockoutUntil, lo, cap - 1, flying);
  }

  lemma {:induction false} EverythingBounded(ts: seq<nat>, h: seq<nat>, starts: seq<nat>, lockout: int,
                                             now: nat, until: int, lo: int, k: int, flying: int)
    requires BoundedBy(ts, h, starts, lockout, now, until, lo, now, k, flying)
    requires NoneAfter(ts, now) && lo < 0 && lo + 1 < lockout
    requires (forall t :: t in h ==> t in ts) && forall t :: t in starts ==> t in h
    ensures |ts| <= |h| + k * |starts| && (k == 0 ==> |ts| <= |h|)
  {
    forall t | t in ts ensures lo < t <= now {
      var i :| 0 <= i < |ts| && ts[i] == t;
    }
    EverythingCounts(ts, lo, now);
    EverythingCounts(h, lo, now);
    EverythingCounts(starts, lo + 1 - lockout, now);
  }

  ghost predicate TriggersSpaced(c: Config, h: seq<nat>) {
    forall i, j {:trigger Triggers(c, h, i), h[j]} ::
      0 <= i < j < |h| && Triggers(c, h, i) ==> h[i] + c.lockout <= h[j]
  }

  predicate Apart(ts: seq<nat>, gap: int) {
    forall i, j :: 0 <= i < j < |ts| ==> ts[i] + gap <= ts[j]
  }

  lemma {:induction false} CountedIsSpaced(c: Config, attempts: seq<nat>)
    requires Sorted(attempts)
    ensures TriggersSpaced(c, Counted(c, attempts))
  {
    var h := Counted(c, attempts);
    forall i, j | 0 <= i < j < |h| && Triggers(c, h, i) ensures h[i] + c.lockout <= h[j] {
      LockoutsAreDisjoint(c, attempts, i, j);
    }
  }

  lemma {:induction false} PrefixSpaced(c: Config, h: seq<nat>)
    requires TriggersSpaced(c, h) && h != []
    ensures TriggersSpaced(c, Init(h))
    ensures forall k :: 0 <= k < |h| - 1 && Triggers(c, Init(h), k) ==> h[k] + c.lockout <= Last(h)
  {
    assert h == Init(h) + [Last(h)];
    forall k | 0 <= k < |h| - 1 ensures Triggers(c, Init(h), k) == Triggers(c, h, k) {
      TriggersExtends(c, Init(h), Last(h), k);
    }
  }

  lemma {:induction false} StartIsTrigger(c: Config, h: seq<nat>, t: nat) returns (k: nat)
    requires t in LockoutStarts(c, h)
    ensures k < |h| && Triggers(c, h, k) && h[k] == t
  {
    if t in LockoutStarts(c, Init(h)) {
      k := StartIsTrigger(c, Init(h), t);
      TriggersExtends(c, Init(h), Last(h), k);
      assert h == Init(h) + [Last(h)];
    } else {
      k := |h| - 1;
    }
  }

  lemma {:induction false} StartsAreApart(c: Config, h: seq<nat>)
    requires TriggersSpaced(c, h)
    ensures Apart(LockoutStarts(c, h), c.lockout)
  {
    if h != [] {
      PrefixSpaced(c, h);
      StartsAreApart(c, Init(h));
      var before := LockoutStarts(c, Init(h));
      assert forall i :: 0 <= i < |before| ==> before[i] in before;
      forall t | t in LockoutStarts(c, Init(h)) ensures t + c.lockout <= Last(h) {
        var k := StartIsTrigger(c, Init(h), t);
      }
    }
  }

  /** Points at least a gap apart fill the gaps between the first and the last. */
  lemma {:induction false} GapsAddUp(ts: seq<nat>, gap: int, p: nat, n: nat)
    requires Apart(ts, gap) && 0 < n && p + n <= |ts|
    ensures ts[p] + (n - 1) * gap <= ts[p + n - 1]
  {
    if n > 1 {
      GapsAddUp(ts, gap, p, n - 1);
      OneMore(gap, n - 2);
    }
  }

  /** An interval no longer than n gaps holds at most n points that lie a gap apart. */
  lemma {:induction false} ApartFit(ts: seq<nat>, gap: int, lo: int, length: nat)
    requires gap > 0 && Apart(ts, gap)
    ensures CountIn(ts, lo, lo + length) <= CeilDiv(length, gap)
  {
    var p, q := CountIsBlock(ts, lo, lo + length);
    CeilDivLeast(length, gap, -1);
    if p < q {
      GapsAddUp(ts, gap, p, q - p);
      CeilDivLeast(length, gap, q - p - 1);
    }
  }

  lemma {:induction false} NoneWithin(ts: seq<nat>, lo: int, hi: int)
    requires forall t :: t in ts ==> !(lo < t <= hi)
    ensures CountIn(ts, lo, hi) == 0
  {
    if ts != [] {
      assert Last(ts) in ts && forall t :: t in Init(ts) ==> t in ts;
      NoneWithin(Init(ts), lo, hi);
    }
  }

  /** At most one lockout stands as an interval begins, and it lets nothing be counted while it does. */
  lemma {:induction false} StandingLockout(h: seq<nat>, starts: seq<nat>, gap: int, start: int, at: nat, end: int)
    requires gap > 0 && Apart(starts, gap) && at in starts && at <= start && start + 1 < at + gap <= end + 1
    requires forall t :: t in h && t > at ==> t >= at + gap
    ensures CountIn(h, start, end) == CountIn(h, at + gap - 1, end)
    ensures CountIn(starts, start + 1 - gap, end) <= 1 + CountIn(starts, at + gap - 1, end)
  {
    var free := at + gap - 1;
    CountSplits(h, start, free, end);
    NoneWithin(h, start, free);
    CountSplits(starts, start + 1 - gap, at, end);
    CountSplits(starts, at, free, end);
    ApartAfter(starts, gap, at);
    NoneWithin(starts, at, free);
    ApartFit(starts, gap, start + 1 - gap, at - start - 1 + gap);
    CeilDivLeast(at - start - 1 + gap, gap, 1);
  }

  lemma {:induction false} ApartAfter(ts: seq<nat>, gap: int, at: nat)
    requires gap > 0 && Apart(ts, gap) && at in ts
    ensures forall t :: t in ts && t > at ==> t >= at + gap
  {
    var i :| 0 <= i < |ts| && ts[i] == at;
    forall t | t in ts && t > at ensures t >= at + gap {
      var j :| 0 <= j < |ts| && ts[j] == t;
      assert j <= i || ts[i] + gap <= ts[j];
    }
  }

  lemma {:induction false} NothingCountedWhileLocked(c: Config, attempts: seq<nat>, at: nat)
    requires Sorted(attempts) && at in LockoutStarts(c, Counted(c, attempts))
    ensures forall t :: t in Counted(c, attempts) && t > at ==> t >= at + c.lockout
  {
    var h := Counted(c, attempts);
    var k := StartIsTrigger(c, h, at);
    CountedIsSorted(c, attempts);
    forall t | t in h && t > at ensures t >= at + c.lockout {
      var j :| 0 <= j < |h| && h[j] == t;
      LockoutsAreDisjoint(c, attempts, k, j);
    }
  }

  lemma {:induction false} ApartMeet(starts: seq<nat>, gap: int, start: int, length: nat)
    requires gap > 0 && Apart(starts, gap)
    ensures CountIn(starts, start + 1 - gap, start + length)
              == CountIn(starts, start + 1 - gap, start) + CountIn(starts, start, start + length)
    ensures CountIn(starts, start + 1 - gap, start) <= 1
    ensures CountIn(starts, start, start + length) <= CeilDiv(length, gap)
  {
    CountSplits(starts, start + 1 - gap, start, start + length);
    ApartFit(starts, gap, start, length);
    ApartFit(starts, gap, start + 1 - gap, gap - 1);
    CeilDivLeast(gap - 1, gap, 1);
  }

  /** No more lockouts meet an interval than fit in it, and one that stands as it begins. */
  lemma {:induction false} LockoutsInBounded(c: Config, attempts: seq<nat>, start: int, length: nat)
    requires Sorted(attempts) && c.lockout > 0
    ensures LockoutsIn(c, Counted(c, attempts), start, start + length) <= CeilDiv(length, c.lockout) + 1
  {
    CountedIsSpaced(c, attempts);
    StartsAreApart(c, Counted(c, attempts));
    ApartMeet(LockoutStarts(c, Counted(c, attempts)), c.lockout, start, length);
  }

  /** What an interval of this length can admit if no lockout stands as it begins. */
  function Most(c: Config, cap: nat, length: nat): int
    requires Sane(c)
  {
    WindowBudget(c) * CeilDiv(length, c.window) + (cap - 1) * CeilDiv(length, c.lockout)
  }

  /** A lockout stands as the interval begins and can drop some failure of it. */
  predicate Stands(starts: seq<nat>, lockout: int, at: nat, start: int) {
    at in starts && at <= start && start + 1 < at + lockout
  }

  predicate NoneStands(starts: seq<nat>, lockout: int, start: int) {
    forall at :: at in starts ==> !Stands(starts, lockout, at, start)
  }

  /** How long the interval goes on once the lockout started at `at` is over. */
  function Remaining(lockout: int, at: nat, end: int): nat {
    if at + lockout - 1 <= end then end - (at + lockout - 1) else 0
  }

  /** Either nothing stands and the interval's own length bounds it, or what remains after the standing lockout does. */
  ghost predicate AdmitsAtMost(c: Config, ts: seq<nat>, cap: nat, start: int, length: nat)
    requires Sane(c)
  {
    var starts, end := LockoutStarts(c, Counted(c, ts)), start + length;
    && (NoneStands(starts, c.lockout, start) ==> CountIn(ts, start, end) <= Most(c, cap, length))
    && forall at :: at in starts && Stands(starts, c.lockout, at, start) ==>
         CountIn(ts, start, end) <= cap - 1 + Most(c, cap, Remaining(c.lockout, at, end))
  }

  /**
    The brute-force guarantee: in any interval, whatever interleaves, the failures an IP gets
    in are at most the windows' budget plus cap - 1 for each lockout meeting the interval. No
    more lockouts meet it than fit, and one that stands as it begins; and that one costs the
    interval the time it still stands.
  */
  lemma {:induction false} AnyIntervalAdmitsAtMost(c: Config, ip: string, cap: nat, steps: seq<Step>, s: State,
                                                   start: int, length: nat)
    requires Reachable(c, ip, cap, steps, s) && Sane(c) && cap >= 1
    ensures var ts, end := FailuresOf(s.log, ip), start + length;
            var lockouts := LockoutsIn(c, Counted(c, ts), start, end);
            && CountIn(ts, start, end) <= WindowBudget(c) * CeilDiv(length, c.window) + (cap - 1) * lockouts
            && lockouts <= CeilDiv(length, c.lockout) + 1
    ensures AdmitsAtMost(c, FailuresOf(s.log, ip), cap, start, length)
  {
    ReachableIsBounded(c, ip, start, start + length, cap, steps, s);
    ProjectionIsOrdered(s.log, ip, s.now);
    BoundedAdmits(c, FailuresOf(s.log, ip), s.now, cap, |InFlight(s, ip)|, start, length);
  }

  lemma {:induction false} BoundedAdmits(c: Config, ts: seq<nat>, now: nat, cap: nat, flying: nat,
                                         start: int, length: nat)
    requires Sorted(ts) && Sane(c) && cap >= 1 && Bounded(c, ts, now, start, start + length, cap, flying)
    ensures var lockouts := LockoutsIn(c, Counted(c, ts), start, start + length);
            && CountIn(ts, start, start + length) <= WindowBudget(c) * CeilDiv(length, c.window) + (cap - 1) * lockouts
            && lockouts <= CeilDiv(length, c.lockout) + 1
    ensures AdmitsAtMost(c, ts, cap, start, length)
  {
    AnyIntervalWithinBudget(c, ts, start, length);
    LockoutsInBounded(c, ts, start, length);
    BoundedSharply(c, ts, cap, start, length);
  }

  lemma {:induction false} BoundedSharply(c: Config, ts: seq<nat>, cap: nat, start: int, length: nat)
    requires Sorted(ts) && Sane(c) && cap >= 1
    requires var h, end := Counted(c, ts), start + length;
             CountIn(ts, start, end) <= CountIn(h, start, end) + (cap - 1) * LockoutsIn(c, h, start, end)
    ensures AdmitsAtMost(c, ts, cap, start, length)
  {
    var starts := LockoutStarts(c, Counted(c, ts));
    if NoneStands(starts, c.lockout, start) {
      ClearSharply(c, ts, cap, start, length);
    }
    forall at | at in starts && Stands(starts, c.lockout, at, start)
      ensures CountIn(ts, start, start + length) <= cap - 1 + Most(c, cap, Remaining(c.lockout, at, start + length))
    {
      LockedSharply(c, ts, cap, start, length, at);
    }
  }

  lemma {:induction false} ClearSharply(c: Config, ts: seq<nat>, cap: nat, start: int, length: nat)
    requires Sorted(ts) && Sane(c) && cap >= 1
    requires var h, end := Counted(c, ts), start + length;
             CountIn(ts, start, end) <= CountIn(h, start, end) + (cap - 1) * LockoutsIn(c, h, start, end)
    requires NoneStands(LockoutStarts(c, Counted(c, ts)), c.lockout, start)
    ensures CountIn(ts, start, start + length) <= Most(c, cap, length)
  {
    var h := Counted(c, ts);
    CountedIsSpaced(c, ts);
    StartsAreApart(c, h);
    AnyIntervalWithinBudget(c, ts, start, length);
    ClearStart(c, CountIn(ts, start, start + length), h, LockoutStarts(c, h), cap, start, length);
  }

  lemma {:induction false} LockedSharply(c: Config, ts: seq<nat>, cap: nat, start: int, length: nat, at: nat)
    requires Sorted(ts) && Sane(c) && cap >= 1
    requires var h, end := Counted(c, ts), start + length;
             CountIn(ts, start, end) <= CountIn(h, start, end) + (cap - 1) * LockoutsIn(c, h, start, end)
    requires Stands(LockoutStarts(c, Counted(c, ts)), c.lockout, at, start)
    ensures CountIn(ts, start, start + length) <= cap - 1 + Most(c, cap, Remaining(c.lockout, at, start + length))
  {
    var h, end := Counted(c, ts), start + length;
    CountedIsSpaced(c, ts);
    StartsAreApart(c, h);
    NothingCountedWhileLocked(c, ts, at);
    AnyIntervalWithinBudget(c, ts, at + c.lockout - 1, Remaining(c.lockout, at, end));
    LockedStart(c, CountIn(ts, start, end), h, LockoutStarts(c, h), cap, start, end, at);
  }

  lemma {:induction false} ClearStart(c: Config, got: int, h: seq<nat>, starts: seq<nat>, cap: nat,
                                      start: int, length: nat)
    requires Sane(c) && cap >= 1 && Apart(starts, c.lockout)
    requires NoneStands(starts, c.lockout, start)
    requires CountIn(h, start, start + length) <= WindowBudget(c) * CeilDiv(length, c.window)
    requires got <= CountIn(h, start, start + length)
                      + (cap - 1) * CountIn(starts, start + 1 - c.lockout, start + length)
    ensures got <= Most(c, cap, length)
  {
    forall at | at in starts ensures !(start + 1 - c.lockout < at <= start) {
      assert !Stands(starts, c.lockout, at, start);
    }
    NoneWithin(starts, start + 1 - c.lockout, start);
    ApartMeet(starts, c.lockout, start, length);
    TimesMonotone(cap - 1, CountIn(starts, start + 1 - c.lockout, start + length), CeilDiv(length, c.lockout));
  }

  lemma {:induction false} LockedStart(c: Config, got: int, h: seq<nat>, starts: seq<nat>, cap: nat,
                                       start: int, end: int, at: nat)
    requires Sane(c) && cap >= 1 && Apart(starts, c.lockout) && start <= end
    requires Stands(starts, c.lockout, at, start) && forall t :: t in h && t > at ==> t >= at + c.lockout
    requires var free, rest := at + c.lockout - 1, Remaining(c.lockout, at, end);
             CountIn(h, free, free + rest) <= WindowBudget(c) * CeilDiv(rest, c.window)
    requires got <= CountIn(h, start, end) + (cap - 1) * CountIn(starts, start + 1 - c.lockout, end)
    ensures got <= cap - 1 + Most(c, cap, Remaining(c.lockout, at, end))
  {
    var free, rest := at + c.lockout - 1, Remaining(c.lockout, at, end);
    var lockouts := CountIn(starts, start + 1 - c.lockout, end);
    if free <= end {
      StandingLockout(h, starts, c.lockout, start, at, end);
      ApartFit(starts, c.lockout, free, rest);
      TimesMonotone(cap - 1, lockouts, 1 + CeilDiv(rest, c.lockout));
      OneMore(cap - 1, CeilDiv(rest, c.lockout));
    } else {
      NoneWithin(h, start, end);
      ApartAfter(starts, c.lockout, at);
      NoneWithin(starts, start, end);
      ApartMeet(starts, c.lockout, start, end - start);
      TimesMonotone(cap - 1, lockouts, 1);
      CeilDivSmall(0, c.window);
      CeilDivSmall(0, c.lockout);
    }
  }

  lemma {:induction false} TimesMonotone(k: nat, x: int, y: int)
    requires x <= y
    ensures k * x <= k * y
  {
    MulMonotone(x, y, k);
  }
}
