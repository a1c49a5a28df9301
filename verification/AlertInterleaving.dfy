/**
  Alert calls in flight together. Each decides under the lock and emits outside it, so the
  calls' events and notifications come out interleaved, each call's own in order. Calls are
  numbered in lock order.
*/
module AlertInterleaving {
  import opened Options
  import opened Seqs
  import opened Evaluator
  import opened Alerts

  datatype Output = Record(e: Event) | Notify(n: Notification)

  datatype Emission = Emission(call: nat, o: Output)

  /** Call k tracked polls[k], decided[k] is what it is to emit, and done[k] how much of that is out. */
  datatype Shared = Shared(
    lastState: map<string, Status>, lastAlertTime: map<string, real>,
    polls: seq<Poll>, decided: seq<seq<Output>>, done: seq<nat>, out: seq<Emission>)

  const START := Shared(map[], map[], [], [], [], [])

  datatype Step = Track(p: Poll) | Emit(call: nat)

  predicate Enabled(s: Shared, step: Step) {
    match step
    case Track(_) => true
    case Emit(k) => k < |s.done| && k < |s.decided| && s.done[k] < |s.decided[k]|
  }

  /** What one call emits: the event, then the notification or the recovery. */
  function Decision(p: Poll, changed: bool, notify: bool): seq<Output> {
    var after :=
      if notify then [Notify(Notification(p.service, p.at))]
      else if p.state == OK then [Record(Event(p.service, Recovered))]
      else [];
    if changed then [Record(Event(p.service, State(p.state)))] + after else []
  }

  /** The locked section decides as the engine's Track does. */
  function Tracked(cooldown: real, s: Shared, p: Poll): Shared {
    var known, lastAlert := KnownIn(s.lastState, p.service), LastIn(s.lastAlertTime, p.service);
    var notify := Notifies(known, lastAlert, cooldown, p);
    s.(lastState := s.lastState[p.service := p.state],
       lastAlertTime := if notify then s.lastAlertTime[p.service := p.at] else s.lastAlertTime,
       polls := s.polls + [p], decided := s.decided + [Decision(p, IsChange(known, p.state), notify)],
       done := s.done + [0])
  }

  function Next(cooldown: real, s: Shared, step: Step): Shared
    requires Enabled(s, step)
  {
    match step
    case Track(p) => Tracked(cooldown, s, p)
    case Emit(k) => s.(done := s.done[k := s.done[k] + 1], out := s.out + [Emission(k, s.decided[k][s.done[k]])])
  }

  /** Where the steps lead, if each is possible when it is taken. */
  ghost function Exec(cooldown: real, steps: seq<Step>): Option<Shared> {
    if steps == [] then Some(START)
    else
      match Exec(cooldown, Init(steps))
      case None => None
      case Some(before) => if Enabled(before, Last(steps)) then Some(Next(cooldown, before, Last(steps))) else None
  }

  ghost predicate Reachable(cooldown: real, steps: seq<Step>, s: Shared) {
    Exec(cooldown, steps) == Some(s)
  }

  // ---------------------------------------------------------------- what comes out

  function EventsIn(outputs: seq<Output>): seq<Event> {
    if outputs == [] then []
    else EventsIn(Init(outputs)) + if Last(outputs).Record? then [Last(outputs).e] else []
  }

  function NotificationsIn(outputs: seq<Output>): seq<Notification> {
    if outputs == [] then []
    else NotificationsIn(Init(outputs)) + if Last(outputs).Notify? then [Last(outputs).n] else []
  }

  /** The decisions of the first n calls, in lock order. */
  function FirstDecided(decided: seq<seq<Output>>, n: nat): seq<Output>
    requires n <= |decided|
  {
    if n == 0 then [] else FirstDecided(decided, n - 1) + decided[n - 1]
  }

  /** All decisions in lock order. */
  function Flatten(decided: seq<seq<Output>>): seq<Output> {
    FirstDecided(decided, |decided|)
  }

  /** What the first n calls have emitted, in the order it came out. */
  function Below(out: seq<Emission>, n: nat): seq<Output> {
    if out == [] then [] else Below(Init(out), n) + if Last(out).call < n then [Last(out).o] else []
  }

  /** What one call has emitted. */
  function By(out: seq<Emission>, k: nat): seq<Output> {
    if out == [] then [] else By(Init(out), k) + if Last(out).call == k then [Last(out).o] else []
  }

  lemma {:induction false} EventsJoin(a: seq<Output>, b: seq<Output>)
    ensures EventsIn(a + b) == EventsIn(a) + EventsIn(b)
  {
    if b == [] {
      assert a + b == a;
    } else {
      assert Init(a + b) == a + Init(b);
      EventsJoin(a, Init(b));
    }
  }

  lemma {:induction false} NotificationsJoin(a: seq<Output>, b: seq<Output>)
    ensures NotificationsIn(a + b) == NotificationsIn(a) + NotificationsIn(b)
  {
    if b == [] {
      assert a + b == a;
    } else {
      assert Init(a + b) == a + Init(b);
      NotificationsJoin(a, Init(b));
    }
  }

  lemma {:induction false} FlattenStep(decided: seq<seq<Output>>, outputs: seq<Output>)
    ensures Flatten(decided + [outputs]) == Flatten(decided) + outputs
  {
    FirstDecidedStay(decided, outputs, |decided|);
  }

  lemma {:induction false} FirstDecidedStay(decided: seq<seq<Output>>, outputs: seq<Output>, n: nat)
    requires n <= |decided|
    ensures FirstDecided(decided + [outputs], n) == FirstDecided(decided, n)
  {
    if n > 0 {
      FirstDecidedStay(decided, outputs, n - 1);
    }
  }

  lemma {:induction false} OneOutput(o: Output)
    ensures EventsIn([o]) == if o.Record? then [o.e] else []
    ensures NotificationsIn([o]) == if o.Notify? then [o.n] else []
  {
    assert Init([o]) == [];
  }

  lemma {:induction false} DecisionIs(p: Poll, changed: bool, notify: bool)
    requires notify ==> changed && p.state != OK
    ensures EventsIn(Decision(p, changed, notify)) == Added(p, changed)
    ensures NotificationsIn(Decision(p, changed, notify)) == Sent(p, notify)
  {
    if changed {
      var first, second := Record(Event(p.service, State(p.state))), Decision(p, changed, notify)[1..];
      OneOutput(first);
      EventsJoin([first], second);
      NotificationsJoin([first], second);
      assert Decision(p, changed, notify) == [first] + second;
      if second != [] {
        OneOutput(second[0]);
        assert second == [second[0]];
      }
    }
  }

  // ---------------------------------------------------------------- invariant

  /** Decisions in lock order are right for every service. */
  ghost predicate DecidedRight(cooldown: real, s: Shared) {
    var all := Flatten(s.decided);
    AllFaithful(s.polls, EventsIn(all), NotificationsIn(all), cooldown, s.lastState, s.lastAlertTime)
  }

  /** Each call has emitted the beginning of its own decision, in order, and nothing else is out. */
  ghost predicate InOrder(s: Shared) {
    && |s.polls| == |s.decided| == |s.done|
    && (forall k :: 0 <= k < |s.done| ==> s.done[k] <= |s.decided[k]| && By(s.out, k) == s.decided[k][..s.done[k]])
    && forall i :: 0 <= i < |s.out| ==> s.out[i].call < |s.decided|
  }

  ghost predicate Inv(cooldown: real, s: Shared) {
    DecidedRight(cooldown, s) && InOrder(s)
  }

  lemma {:induction false} NothingIsFaithful(cooldown: real)
    ensures AllFaithful([], [], [], cooldown, map[], map[])
  {
    forall service ensures Recorded([], [], service, None) && Paced([], cooldown, service, 0.0) {
      assert StatesOf([], service) == [] && ActionsOf([], service) == [] && StampsOf([], service) == [];
    }
  }

  lemma {:induction false} TrackDecidesRight(cooldown: real, s: Shared, p: Poll)
    requires DecidedRight(cooldown, s)
    ensures DecidedRight(cooldown, Tracked(cooldown, s, p))
  {
    var known, lastAlert := KnownIn(s.lastState, p.service), LastIn(s.lastAlertTime, p.service);
    var changed, notify := IsChange(known, p.state), Notifies(known, lastAlert, cooldown, p);
    var all, outputs := Flatten(s.decided), Decision(p, changed, notify);
    FlattenStep(s.decided, outputs);
    EventsJoin(all, outputs);
    NotificationsJoin(all, outputs);
    DecisionIs(p, changed, notify);
    PollStep(s.polls, EventsIn(all), NotificationsIn(all), cooldown, s.lastState, s.lastAlertTime, p, changed, notify);
  }

  lemma {:induction false} ByNone(out: seq<Emission>, k: nat)
    requires forall i :: 0 <= i < |out| ==> out[i].call != k
    ensures By(out, k) == []
  {
    if out != [] {
      ByNone(Init(out), k);
    }
  }

  lemma {:induction false} TrackKeepsOrder(cooldown: real, s: Shared, p: Poll)
    requires InOrder(s)
    ensures InOrder(Tracked(cooldown, s, p))
  {
    ByNone(s.out, |s.decided|);
  }

  lemma {:induction false} ByStep(out: seq<Emission>, e: Emission, k: nat)
    ensures By(out + [e], k) == By(out, k) + if e.call == k then [e.o] else []
  {
    assert Init(out + [e]) == out;
  }

  lemma {:induction false} EmitKeepsOrder(cooldown: real, s: Shared, step: Step)
    requires InOrder(s) && step.Emit? && Enabled(s, step)
    ensures InOrder(Next(cooldown, s, step))
  {
    var s', e := Next(cooldown, s, step), Emission(step.call, s.decided[step.call][s.done[step.call]]);
    forall k | 0 <= k < |s'.done| ensures By(s'.out, k) == s'.decided[k][..s'.done[k]] {
      ByStep(s.out, e, k);
      assert By(s.out, k) == s.decided[k][..s.done[k]];
    }
  }

  lemma {:induction false} StepKeepsInv(cooldown: real, s: Shared, step: Step)
    requires Inv(cooldown, s) && Enabled(s, step)
    ensures Inv(cooldown, Next(cooldown, s, step))
  {
    match step
    case Track(p) =>
      TrackDecidesRight(cooldown, s, p);
      TrackKeepsOrder(cooldown, s, p);
    case Emit(_) => EmitKeepsOrder(cooldown, s, step);
  }

  lemma {:induction false} ReachableHasInv(cooldown: real, steps: seq<Step>, s: Shared)
    requires Reachable(cooldown, steps, s)
    ensures Inv(cooldown, s)
  {
    if steps == [] {
      NothingIsFaithful(cooldown);
    } else {
      var before := Exec(cooldown, Init(steps)).value;
      ReachableHasInv(cooldown, Init(steps), before);
      StepKeepsInv(cooldown, before, Last(steps));
    }
  }

  // ---------------------------------------------------------------- nothing lost, nothing repeated

  predicate AllDone(s: Shared)
    requires |s.done| == |s.decided|
  {
    forall k :: 0 <= k < |s.done| ==> s.done[k] == |s.decided[k]|
  }

  /** How often an output occurs. */
  function Count(outputs: seq<Output>, o: Output): nat {
    if outputs == [] then 0 else Count(Init(outputs), o) + if Last(outputs) == o then 1 else 0
  }

  lemma {:induction false} CountJoin(a: seq<Output>, b: seq<Output>, o: Output)
    ensures Count(a + b, o) == Count(a, o) + Count(b, o)
  {
    if b == [] {
      assert a + b == a;
    } else {
      assert Init(a + b) == a + Init(b);
      CountJoin(a, Init(b), o);
    }
  }

  lemma {:induction false} CountMaybe(a: seq<Output>, last: Output, there: bool, o: Output)
    ensures Count(a + (if there then [last] else []), o) == Count(a, o) + if there && last == o then 1 else 0
  {
    assert Init(a + [last]) == a && a + [] == a;
  }

  lemma {:induction false} BelowStep(out: seq<Emission>, n: nat, o: Output)
    ensures Count(Below(out, n + 1), o) == Count(Below(out, n), o) + Count(By(out, n), o)
    decreases |out|
  {
    if out != [] {
      var before, call, last := Init(out), Last(out).call, Last(out).o;
      BelowStep(before, n, o);
      CountMaybe(Below(before, n + 1), last, call < n + 1, o);
      CountMaybe(Below(before, n), last, call < n, o);
      CountMaybe(By(before, n), last, call == n, o);
    }
  }

  lemma {:induction false} BelowNone(out: seq<Emission>)
    ensures Below(out, 0) == []
  {
    if out != [] {
      BelowNone(Init(out));
    }
  }

  /** Each of the calls has emitted no more of an output than it decided. */
  predicate NoMore(out: seq<Emission>, decided: seq<seq<Output>>, o: Output) {
    forall k {:trigger By(out, k)} :: 0 <= k < |decided| ==> Count(By(out, k), o) <= Count(decided[k], o)
  }

  /** And no less. */
  predicate NoLess(out: seq<Emission>, decided: seq<seq<Output>>, o: Output) {
    forall k {:trigger By(out, k)} :: 0 <= k < |decided| ==> Count(By(out, k), o) >= Count(decided[k], o)
  }

  lemma {:induction false} DecidedStep(decided: seq<seq<Output>>, n: nat, o: Output)
    requires n < |decided|
    ensures Count(FirstDecided(decided, n + 1), o) == Count(FirstDecided(decided, n), o) + Count(decided[n], o)
  {
    CountJoin(FirstDecided(decided, n), decided[n], o);
  }

  lemma {:induction false} FirstNoMore(out: seq<Emission>, decided: seq<seq<Output>>, n: nat, o: Output)
    requires NoMore(out, decided, o) && n <= |decided|
    ensures Count(Below(out, n), o) <= Count(FirstDecided(decided, n), o)
    decreases n
  {
    if n == 0 {
      BelowNone(out);
    } else {
      FirstNoMore(out, decided, n - 1, o);
      BelowStep(out, n - 1, o);
      DecidedStep(decided, n - 1, o);
    }
  }

  lemma {:induction false} FirstNoLess(out: seq<Emission>, decided: seq<seq<Output>>, n: nat, o: Output)
    requires NoLess(out, decided, o) && n <= |decided|
    ensures Count(Below(out, n), o) >= Count(FirstDecided(decided, n), o)
    decreases n
  {
    if n > 0 {
      FirstNoLess(out, decided, n - 1, o);
      BelowStep(out, n - 1, o);
      DecidedStep(decided, n - 1, o);
    }
  }

  lemma {:induction false} CallIsDecided(s: Shared, k: nat, o: Output)
    requires InOrder(s) && k < |s.decided|
    ensures Count(By(s.out, k), o) <= Count(s.decided[k], o)
    ensures AllDone(s) ==> Count(By(s.out, k), o) == Count(s.decided[k], o)
  {
    var own, n := s.decided[k], s.done[k];
    assert own == own[..n] + own[n..];
    CountJoin(own[..n], own[n..], o);
    assert AllDone(s) ==> own[..n] == own;
  }

  lemma {:induction false} OutCounts(s: Shared, o: Output)
    requires InOrder(s)
    ensures Count(Below(s.out, |s.decided|), o) <= Count(Flatten(s.decided), o)
    ensures AllDone(s) ==> Count(Below(s.out, |s.decided|), o) == Count(Flatten(s.decided), o)
  {
    forall k | 0 <= k < |s.decided|
      ensures Count(By(s.out, k), o) <= Count(s.decided[k], o)
      ensures AllDone(s) ==> Count(By(s.out, k), o) >= Count(s.decided[k], o)
    {
      CallIsDecided(s, k, o);
    }
    FirstNoMore(s.out, s.decided, |s.decided|, o);
    if AllDone(s) {
      FirstNoLess(s.out, s.decided, |s.decided|, o);
    }
  }

  lemma {:induction false} EventsCounted(outputs: seq<Output>, e: Event)
    ensures multiset(EventsIn(outputs))[e] == Count(outputs, Record(e))
  {
    if outputs != [] {
      var before, last := Init(outputs), Last(outputs);
      EventsCounted(before, e);
      if last.Record? {
        assert multiset(EventsIn(before) + [last.e]) == multiset(EventsIn(before)) + multiset{last.e};
      } else {
        assert last != Record(e);
      }
    }
  }

  lemma {:induction false} NotificationsCounted(outputs: seq<Output>, n: Notification)
    ensures multiset(NotificationsIn(outputs))[n] == Count(outputs, Notify(n))
  {
    if outputs != [] {
      var before, last := Init(outputs), Last(outputs);
      NotificationsCounted(before, n);
      if last.Notify? {
        assert multiset(NotificationsIn(before) + [last.n]) == multiset(NotificationsIn(before)) + multiset{last.n};
      } else {
        assert last != Notify(n);
      }
    }
  }

  lemma {:induction false} ActionsCounted(events: seq<Event>, service: string, a: Action)
    ensures multiset(ActionsOf(events, service))[a] == multiset(events)[Event(service, a)]
  {
    if events != [] {
      var before, last := Init(events), Last(events);
      assert events == before + [last];
      ActionsCounted(before, service, a);
      if last.service == service {
        assert multiset(ActionsOf(before, service) + [last.action])
            == multiset(ActionsOf(before, service)) + multiset{last.action};
      } else {
        assert last != Event(service, a);
      }
    }
  }

  lemma {:induction false} StampsCounted(sent: seq<Notification>, service: string, at: real)
    ensures multiset(StampsOf(sent, service))[at] == multiset(sent)[Notification(service, at)]
  {
    if sent != [] {
      var before, last := Init(sent), Last(sent);
      assert sent == before + [last];
      StampsCounted(before, service, at);
      if last.service == service {
        assert multiset(StampsOf(before, service) + [last.at])
            == multiset(StampsOf(before, service)) + multiset{last.at};
      } else {
        assert last != Notification(service, at);
      }
    }
  }

  /** More outputs, more of every action. */
  lemma {:induction false} ActionsFollow(a: seq<Output>, b: seq<Output>, service: string)
    requires forall o :: Count(a, o) <= Count(b, o)
    ensures multiset(ActionsOf(EventsIn(a), service)) <= multiset(ActionsOf(EventsIn(b), service))
  {
    forall x ensures multiset(ActionsOf(EventsIn(a), service))[x] <= multiset(ActionsOf(EventsIn(b), service))[x] {
      ActionsCounted(EventsIn(a), service, x);
      ActionsCounted(EventsIn(b), service, x);
      EventsCounted(a, Event(service, x));
      EventsCounted(b, Event(service, x));
    }
  }

  /** And of every stamp. */
  lemma {:induction false} StampsFollow(a: seq<Output>, b: seq<Output>, service: string)
    requires forall o :: Count(a, o) <= Count(b, o)
    ensures multiset(StampsOf(NotificationsIn(a), service)) <= multiset(StampsOf(NotificationsIn(b), service))
  {
    forall x
      ensures multiset(StampsOf(NotificationsIn(a), service))[x] <= multiset(StampsOf(NotificationsIn(b), service))[x]
    {
      StampsCounted(NotificationsIn(a), service, x);
      StampsCounted(NotificationsIn(b), service, x);
      NotificationsCounted(a, Notification(service, x));
      NotificationsCounted(b, Notification(service, x));
    }
  }

  // ---------------------------------------------------------------- over whole runs

  /**
    However calls overlap, what is out is an interleaving of the calls' own outputs, each
    call's in its order: call k has emitted the first done[k] of what it decided.
  */
  lemma {:induction false} OutInterleavesTheCalls(cooldown: real, steps: seq<Step>, s: Shared, k: nat)
    requires Reachable(cooldown, steps, s) && k < |s.polls|
    ensures |s.decided| == |s.done| == |s.polls|
    ensures s.done[k] <= |s.decided[k]| && By(s.out, k) == s.decided[k][..s.done[k]]
    ensures forall i :: 0 <= i < |s.out| ==> s.out[i].call < |s.polls|
  {
    ReachableHasInv(cooldown, steps, s);
  }

  /**
    For each service the decisions in lock order are what its polls call for, with stamps
    spaced; what is out is part of them, each as often, and all of them once all calls are done.
  */
  lemma {:induction false} OverlappingCallsLoseNothing(cooldown: real, steps: seq<Step>, s: Shared, service: string)
    requires Reachable(cooldown, steps, s)
    ensures |s.done| == |s.decided|
    ensures var all, out := Flatten(s.decided), Below(s.out, |s.decided|);
            var stamps := StampsOf(NotificationsIn(all), service);
            var due := Render(Changes(StatesOf(s.polls, service)));
            && ActionsOf(EventsIn(all), service) == due && Spaced(stamps, cooldown)
            && multiset(ActionsOf(EventsIn(out), service)) <= multiset(due)
            && multiset(StampsOf(NotificationsIn(out), service)) <= multiset(stamps)
            && (AllDone(s) ==> && multiset(ActionsOf(EventsIn(out), service)) == multiset(due)
                               && multiset(StampsOf(NotificationsIn(out), service)) == multiset(stamps))
  {
    ReachableHasInv(cooldown, steps, s);
    var all, out := Flatten(s.decided), Below(s.out, |s.decided|);
    assert Recorded(s.polls, EventsIn(all), service, KnownIn(s.lastState, service));
    assert Paced(NotificationsIn(all), cooldown, service, LastIn(s.lastAlertTime, service));
    forall o ensures Count(out, o) <= Count(all, o) && (AllDone(s) ==> Count(all, o) == Count(out, o)) {
      OutCounts(s, o);
    }
    ActionsFollow(out, all, service);
    StampsFollow(out, all, service);
    if AllDone(s) {
      ActionsFollow(all, out, service);
      StampsFollow(all, out, service);
    }
  }

  /** The calls' order can really change: a recovery may be on record before the fault it ends. */
  lemma {:induction false} RecoveryMayComeFirst(service: string) returns (steps: seq<Step>, s: Shared)
    ensures Reachable(300.0, steps, s) && |s.done| == |s.decided| && AllDone(s)
    ensures StatesOf(s.polls, service) == [CRITICAL, OK]
    ensures ActionsOf(EventsIn(Below(s.out, 2)), service) == [State(OK), Recovered, State(CRITICAL)]
  {
    var fault, end, over := Event(service, State(CRITICAL)), Event(service, State(OK)), Event(service, Recovered);
    steps, s := FaultAndRecovery(service);
    steps, s := EmitsAll(steps, s, Record(fault), Record(end), Record(over));
    ThreeOut(Emission(1, Record(end)), Emission(1, Record(over)), Emission(0, Record(fault)));
    ActionsOfThree(end, over, fault, service);
    assert [end] + [over] + [fault] == [end, over, fault];
    StatesOfTwo(Poll(service, CRITICAL, false, 0.0), Poll(service, OK, false, 0.0), service);
  }

  lemma {:induction false} EmitsAll(before: seq<Step>, was: Shared, a: Output, b: Output, c: Output)
    returns (steps: seq<Step>, s: Shared)
    requires Reachable(300.0, before, was) && was.decided == [[a], [b, c]] && was.done == [0, 0] && was.out == []
    ensures Reachable(300.0, steps, s)
    ensures s == was.(done := [1, 2], out := [Emission(1, b), Emission(1, c), Emission(0, a)])
  {
    steps, s := StepReaches(300.0, before, was, Emit(1));
    assert s == was.(done := [0, 1], out := [Emission(1, b)]);
    steps, s := StepReaches(300.0, steps, s, Emit(1));
    assert s == was.(done := [0, 2], out := [Emission(1, b), Emission(1, c)]);
    steps, s := StepReaches(300.0, steps, s, Emit(0));
  }

  lemma {:induction false} BelowAppend(out: seq<Emission>, e: Emission, n: nat)
    ensures Below(out + [e], n) == Below(out, n) + if e.call < n then [e.o] else []
  {
    assert Init(out + [e]) == out;
  }

  lemma {:induction false} ThreeBelow(a: Emission, b: Emission, c: Emission)
    requires a.call < 2 && b.call < 2 && c.call < 2
    ensures Below([a, b, c], 2) == [a.o] + [b.o] + [c.o]
  {
    BelowAppend([], a, 2);
    BelowAppend([a], b, 2);
    BelowAppend([a, b], c, 2);
    assert [a, b, c] == [a, b] + [c] && [a, b] == [a] + [b] && [a] == [] + [a];
  }

  lemma {:induction false} ThreeOut(a: Emission, b: Emission, c: Emission)
    requires a.call < 2 && b.call < 2 && c.call < 2 && a.o.Record? && b.o.Record? && c.o.Record?
    ensures EventsIn(Below([a, b, c], 2)) == [a.o.e] + [b.o.e] + [c.o.e]
  {
    ThreeBelow(a, b, c);
    OneOutput(a.o);
    OneOutput(b.o);
    OneOutput(c.o);
    EventsJoin([a.o], [b.o]);
    EventsJoin([a.o] + [b.o], [c.o]);
  }

  lemma {:induction false} ActionsOfThree(a: Event, b: Event, c: Event, service: string)
    requires a.service == service && b.service == service && c.service == service
    ensures ActionsOf([a, b, c], service) == [a.action, b.action, c.action]
  {
    EventsStep([], a, service);
    EventsStep([a], b, service);
    EventsStep([a, b], c, service);
    assert [a, b, c] == [a, b] + [c] && [a, b] == [a] + [b] && [a] == [] + [a];
  }

  lemma {:induction false} StatesOfTwo(a: Poll, b: Poll, service: string)
    requires a.service == service && b.service == service
    ensures StatesOf([a, b], service) == [a.state, b.state]
  {
    PollsStep([], a, service);
    PollsStep([a], b, service);
    assert [a, b] == [a] + [b] && [a] == [] + [a];
  }

  lemma {:induction false} FaultAndRecovery(service: string) returns (steps: seq<Step>, s: Shared)
    ensures Reachable(300.0, steps, s)
    ensures s.polls == [Poll(service, CRITICAL, false, 0.0), Poll(service, OK, false, 0.0)]
    ensures s.decided == [[Record(Event(service, State(CRITICAL)))],
                          [Record(Event(service, State(OK))), Record(Event(service, Recovered))]]
    ensures s.done == [0, 0] && s.out == []
  {
    var bad, good := Poll(service, CRITICAL, false, 0.0), Poll(service, OK, false, 0.0);
    steps, s := StepReaches(300.0, [], START, Track(bad));
    FaultDecided(service);
    RecoveryDecided(service);
    steps, s := StepReaches(300.0, steps, s, Track(good));
  }

  lemma {:induction false} FaultDecided(service: string)
    ensures var s := Tracked(300.0, START, Poll(service, CRITICAL, false, 0.0));
            && KnownIn(s.lastState, service) == Some(CRITICAL)
            && s.decided == [[Record(Event(service, State(CRITICAL)))]] && s.done == [0] && s.out == []
            && s.polls == [Poll(service, CRITICAL, false, 0.0)]
  {
    var fault := [Record(Event(service, State(CRITICAL)))];
    assert Decision(Poll(service, CRITICAL, false, 0.0), true, false) == fault + [] == fault;
  }

  lemma {:induction false} RecoveryDecided(service: string)
    ensures Decision(Poll(service, OK, false, 0.0), true, false)
         == [Record(Event(service, State(OK))), Record(Event(service, Recovered))]
  {
  }

  lemma {:induction false} StepReaches(cooldown: real, steps: seq<Step>, s: Shared, step: Step)
    returns (steps': seq<Step>, s': Shared)
    requires Reachable(cooldown, steps, s) && Enabled(s, step)
    ensures s' == Next(cooldown, s, step) && Reachable(cooldown, steps', s')
  {
    steps', s' := steps + [step], Next(cooldown, s, step);
    assert Init(steps') == steps;
  }
}
