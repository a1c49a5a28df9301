/**
  The alert engine over whole poll histories: what it records, when it notifies, and the
  poll that feeds it. Times are seconds; readings may arrive out of order, since the
  clock is read before the lock is taken.
*/
module Alerts {
  import opened Options
  import opened Seqs
  import opened Evaluator

  datatype Poll = Poll(service: string, state: Status, shouldAlert: bool, at: real)

  datatype Action = State(status: Status) | Recovered

  datatype Event = Event(service: string, action: Action)

  datatype Notification = Notification(service: string, at: real)

  function StatesOf(polls: seq<Poll>, service: string): seq<Status> {
    if polls == [] then []
    else StatesOf(Init(polls), service) + if Last(polls).service == service then [Last(polls).state] else []
  }

  function ActionsOf(events: seq<Event>, service: string): seq<Action> {
    if events == [] then []
    else ActionsOf(Init(events), service) + if Last(events).service == service then [Last(events).action] else []
  }

  function StampsOf(sent: seq<Notification>, service: string): seq<real> {
    if sent == [] then []
    else StampsOf(Init(sent), service) + if Last(sent).service == service then [Last(sent).at] else []
  }

  // ---------------------------------------------------------------- the shape of the log

  /** The states with stutters removed. */
  function Destutter(states: seq<Status>): seq<Status> {
    if |states| <= 1 then states
    else if states[0] == states[1] then Destutter(states[1..])
    else [states[0]] + Destutter(states[1..])
  }

  /** The states worth an event: a service first seen healthy is not one. */
  function Changes(states: seq<Status>): seq<Status> {
    var d := Destutter(states);
    if d != [] && d[0] == OK then d[1..] else d
  }

  /** One action per change, and a recovery after each ok. */
  function Render(changes: seq<Status>): seq<Action> {
    if changes == [] then []
    else [State(changes[0])] + (if changes[0] == OK then [Recovered] else []) + Render(changes[1..])
  }

  function Erase(actions: seq<Action>): seq<Status> {
    if actions == [] then []
    else (if actions[0].State? then [actions[0].status] else []) + Erase(actions[1..])
  }

  lemma {:induction false} ErasingRecoveredDecodes(changes: seq<Status>)
    ensures Erase(Render(changes)) == changes
  {
    if changes != [] {
      ErasingRecoveredDecodes(changes[1..]);
      var rest := Render(changes[1..]);
      if changes[0] == OK {
        assert Render(changes)[1..] == [Recovered] + rest;
        assert ([Recovered] + rest)[1..] == rest;
      } else {
        assert Render(changes)[1..] == rest;
      }
    }
  }

  /** A recovery stands after each ok, and nowhere else. */
  lemma {:induction false} RecoveryFollowsOk(changes: seq<Status>, i: nat)
    ensures i < |Render(changes)| ==> (Render(changes)[i] == Recovered <==> i > 0 && Render(changes)[i - 1] == State(0))
    ensures Render(changes) != [] ==> Last(Render(changes)) != State(0)
  {
    if changes != [] {
      var head := if changes[0] == OK then 2 else 1;
      if i >= head {
        RecoveryFollowsOk(changes[1..], i - head);
      } else {
        RecoveryFollowsOk(changes[1..], 0);
      }
    }
  }

  lemma {:induction false} DestutterIsStutterFree(states: seq<Status>)
    ensures states != [] ==> Destutter(states) != [] && Destutter(states)[0] == states[0]
    ensures forall i :: 0 <= i < |Destutter(states)| - 1 ==> Destutter(states)[i] != Destutter(states)[i + 1]
  {
    if |states| > 1 {
      DestutterIsStutterFree(states[1..]);
    }
  }

  lemma {:induction false} DestutterStep(states: seq<Status>, s: Status)
    ensures Destutter(states + [s])
              == if states != [] && Last(states) == s then Destutter(states) else Destutter(states) + [s]
  {
    if |states| > 1 {
      DestutterStep(states[1..], s);
      assert (states + [s])[1..] == states[1..] + [s];
    } else if |states| == 1 {
      assert (states + [s])[1..] == [s];
    }
  }

  lemma {:induction false} ChangesStep(states: seq<Status>, s: Status)
    ensures Changes(states + [s])
              == if (states != [] && Last(states) == s) || (states == [] && s == OK) then Changes(states)
                 else Changes(states) + [s]
  {
    DestutterStep(states, s);
    DestutterIsStutterFree(states);
  }

  lemma {:induction false} RenderStep(changes: seq<Status>, s: Status)
    ensures Render(changes + [s]) == Render(changes) + [State(s)] + if s == OK then [Recovered] else []
  {
    if changes != [] {
      RenderStep(changes[1..], s);
      assert (changes + [s])[1..] == changes[1..] + [s];
    } else {
      assert (changes + [s])[1..] == [];
      assert Render([]) == [];
    }
  }

  lemma {:induction false} ActionsStep(states: seq<Status>, s: Status)
    ensures Render(Changes(states + [s])) == Render(Changes(states)) +
              NewActions(s, !(states != [] && Last(states) == s) && !(states == [] && s == OK))
  {
    ChangesStep(states, s);
    RenderStep(Changes(states), s);
  }

  function NewActions(s: Status, changed: bool): seq<Action> {
    if !changed then [] else if s == OK then [State(OK), Recovered] else [State(s)]
  }

  lemma {:induction false} PollsStep(polls: seq<Poll>, p: Poll, service: string)
    ensures StatesOf(polls + [p], service)
              == if service == p.service then StatesOf(polls, service) + [p.state] else StatesOf(polls, service)
  {
    assert Init(polls + [p]) == polls;
  }

  lemma {:induction false} EventsStep(events: seq<Event>, e: Event, service: string)
    ensures ActionsOf(events + [e], service)
              == if service == e.service then ActionsOf(events, service) + [e.action] else ActionsOf(events, service)
  {
    assert Init(events + [e]) == events;
  }

  lemma {:induction false} SentStep(sent: seq<Notification>, n: Notification, service: string)
    ensures StampsOf(sent + [n], service)
              == if service == n.service then StampsOf(sent, service) + [n.at] else StampsOf(sent, service)
  {
    assert Init(sent + [n]) == sent;
  }

  // ---------------------------------------------------------------- spacing

  function Latest(stamps: seq<real>): real {
    if stamps == [] then 0.0 else Last(stamps)
  }

  predicate Spaced(stamps: seq<real>, cooldown: real) {
    && (stamps != [] ==> stamps[0] >= cooldown)
    && forall i :: 0 < i < |stamps| ==> stamps[i] - stamps[i - 1] >= cooldown
  }

  lemma {:induction false} SpacedStep(stamps: seq<real>, cooldown: real, now: real)
    requires Spaced(stamps, cooldown) && now - Latest(stamps) >= cooldown
    ensures Spaced(stamps + [now], cooldown)
  {
  }

  /** n notifications span at least n - 1 cooldowns, however the readings jumped about. */
  lemma {:induction false} NotificationsSpan(stamps: seq<real>, cooldown: real, i: nat, j: nat)
    requires Spaced(stamps, cooldown) && i <= j < |stamps|
    ensures stamps[j] - stamps[i] >= (j - i) as real * cooldown
  {
    if i < j {
      NotificationsSpan(stamps, cooldown, i, j - 1);
      assert (j - i) as real * cooldown == (j - 1 - i) as real * cooldown + cooldown by {
        assert (j - i) as real == (j - 1 - i) as real + 1.0;
      }
    }
  }

  /** Suppression in terms of the whole record: some stamp is less than a cooldown before the reading. */
  lemma {:induction false} SuppressedIff(stamps: seq<real>, cooldown: real, now: real)
    requires Spaced(stamps, cooldown) && cooldown >= 0.0 && now >= cooldown
    ensures now - Latest(stamps) < cooldown <==> exists i :: 0 <= i < |stamps| && now - stamps[i] < cooldown
  {
    if exists i :: 0 <= i < |stamps| && now - stamps[i] < cooldown {
      var i :| 0 <= i < |stamps| && now - stamps[i] < cooldown;
      NotificationsSpan(stamps, cooldown, i, |stamps| - 1);
      assert (|stamps| - 1 - i) as real * cooldown >= 0.0;
    }
  }

  // ---------------------------------------------------------------- the engine

  /** One service's events against its polls: the rendered changes, with the last state remembered. */
  ghost predicate Recorded(polls: seq<Poll>, events: seq<Event>, service: string, known: Option<Status>) {
    var states := StatesOf(polls, service);
    && ActionsOf(events, service) == Render(Changes(states))
    && known == if states == [] then None else Some(Last(states))
  }

  /** One service's notifications are spaced, and the last is remembered. */
  ghost predicate Paced(sent: seq<Notification>, cooldown: real, service: string, lastAlert: real) {
    var stamps := StampsOf(sent, service);
    Spaced(stamps, cooldown) && lastAlert == Latest(stamps)
  }

  function KnownIn(lastState: map<string, Status>, service: string): Option<Status> {
    if service in lastState then Some(lastState[service]) else None
  }

  function LastIn(lastAlertTime: map<string, real>, service: string): real {
    if service in lastAlertTime then lastAlertTime[service] else 0.0
  }

  /** Both, for every service. */
  ghost predicate AllFaithful(polls: seq<Poll>, events: seq<Event>, sent: seq<Notification>, cooldown: real,
                              lastState: map<string, Status>, lastAlertTime: map<string, real>)
  {
    && (forall service {:trigger KnownIn(lastState, service)} ::
          Recorded(polls, events, service, KnownIn(lastState, service)))
    && (forall service {:trigger LastIn(lastAlertTime, service)} ::
          Paced(sent, cooldown, service, LastIn(lastAlertTime, service)))
  }

  /** The poll is worth an event. */
  predicate IsChange(known: Option<Status>, state: Status) {
    known != Some(state) && !(known == None && state == OK)
  }

  /** The poll is worth a notification. */
  predicate Notifies(known: Option<Status>, lastAlert: real, cooldown: real, p: Poll) {
    IsChange(known, p.state) && p.state != OK && p.shouldAlert && p.at - lastAlert >= cooldown
  }

  /** The events one poll adds. */
  function Added(p: Poll, changed: bool): seq<Event> {
    if !changed then []
    else if p.state == OK then [Event(p.service, State(OK)), Event(p.service, Recovered)]
    else [Event(p.service, State(p.state))]
  }

  lemma {:induction false} AddedPlainly(events: seq<Event>, p: Poll, changed: bool)
    ensures events + Added(p, changed)
              == events + (if changed then [Event(p.service, State(p.state))] else [])
                        + (if changed && p.state == 0 then [Event(p.service, Recovered)] else [])
  {
  }

  lemma {:induction false} AddedActions(events: seq<Event>, p: Poll, changed: bool, service: string)
    ensures ActionsOf(events + Added(p, changed), service) == ActionsOf(events, service) +
              if service == p.service then NewActions(p.state, changed) else []
  {
    var e, r := Event(p.service, State(p.state)), Event(p.service, Recovered);
    EventsStep(events, e, service);
    EventsStep(events + [e], r, service);
    assert events + [] == events && events + [e, r] == events + [e] + [r];
  }

  /** The notification one poll sends. */
  function Sent(p: Poll, notify: bool): seq<Notification> {
    if notify then [Notification(p.service, p.at)] else []
  }

  lemma {:induction false} RecordedStep(polls: seq<Poll>, events: seq<Event>, p: Poll, changed: bool,
                                        service: string, known: Option<Status>)
    requires Recorded(polls, events, service, known)
    requires service == p.service ==> (changed <==> IsChange(known, p.state))
    ensures Recorded(polls + [p], events + Added(p, changed), service,
                     if service == p.service then Some(p.state) else known)
  {
    PollsStep(polls, p, service);
    AddedActions(events, p, changed, service);
    if service == p.service {
      ActionsStep(StatesOf(polls, service), p.state);
    }
  }

  lemma {:induction false} PacedStep(sent: seq<Notification>, cooldown: real, p: Poll, notify: bool,
                                     service: string, lastAlert: real)
    requires Paced(sent, cooldown, service, lastAlert)
    requires service == p.service && notify ==> p.at - lastAlert >= cooldown
    ensures Paced(sent + Sent(p, notify), cooldown, service, if service == p.service && notify then p.at else lastAlert)
  {
    SentStep(sent, Notification(p.service, p.at), service);
    assert sent + [] == sent;
    if service == p.service && notify {
      SpacedStep(StampsOf(sent, service), cooldown, p.at);
    }
  }

  /** One poll keeps the record faithful for every service. */
  lemma {:induction false} PollStep(polls: seq<Poll>, events: seq<Event>, sent: seq<Notification>, cooldown: real,
                                    lastState: map<string, Status>, lastAlertTime: map<string, real>,
                                    p: Poll, changed: bool, notify: bool)
    requires AllFaithful(polls, events, sent, cooldown, lastState, lastAlertTime)
    requires changed <==> IsChange(KnownIn(lastState, p.service), p.state)
    requires notify ==> p.at - LastIn(lastAlertTime, p.service) >= cooldown
    ensures AllFaithful(polls + [p], events + Added(p, changed), sent + Sent(p, notify), cooldown,
                        lastState[p.service := p.state],
                        if notify then lastAlertTime[p.service := p.at] else lastAlertTime)
  {
    var lastState' := lastState[p.service := p.state];
    var lastAlertTime' := if notify then lastAlertTime[p.service := p.at] else lastAlertTime;
    forall service ensures Recorded(polls + [p], events + Added(p, changed), service, KnownIn(lastState', service)) {
      RecordedStep(polls, events, p, changed, service, KnownIn(lastState, service));
    }
    forall service ensures Paced(sent + Sent(p, notify), cooldown, service, LastIn(lastAlertTime', service)) {
      PacedStep(sent, cooldown, p, notify, service, LastIn(lastAlertTime, service));
    }
  }

  /** The engine's memory of a service is its last poll and its last notification. */
  lemma {:induction false} MemoryIsLast(polls: seq<Poll>, events: seq<Event>, sent: seq<Notification>, cooldown: real,
                                        lastState: map<string, Status>, lastAlertTime: map<string, real>,
                                        service: string)
    requires AllFaithful(polls, events, sent, cooldown, lastState, lastAlertTime)
    ensures var states := StatesOf(polls, service);
            KnownIn(lastState, service) == if states == [] then None else Some(Last(states))
    ensures LastIn(lastAlertTime, service) == Latest(StampsOf(sent, service))
  {
    assert Recorded(polls, events, service, KnownIn(lastState, service));
  }

  class AlertEngine {
    const cooldown: real
    var lastState: map<string, Status>
    var lastAlertTime: map<string, real>
    var events: seq<Event>
    var sent: seq<Notification>
    ghost var polls: seq<Poll>

    ghost predicate Valid()
      reads this
    {
      AllFaithful(polls, events, sent, cooldown, lastState, lastAlertTime)
    }

    function Known(service: string): Option<Status>
      reads this
    {
      KnownIn(lastState, service)
    }

    function LastAlert(service: string): real
      reads this
    {
      LastIn(lastAlertTime, service)
    }

    constructor (cooldown: real)
      ensures Valid() && polls == [] && events == [] && sent == [] && this.cooldown == cooldown
    {
      this.cooldown := cooldown;
      lastState, lastAlertTime, events, sent, polls := map[], map[], [], [], [];
    }

    /** The read-compare-update under the lock: what to do about this poll. */
    method Track(service: string, state: Status, shouldAlert: bool, now: real)
      returns (changed: bool, notify: bool, recovery: bool)
      modifies this`lastState, this`lastAlertTime
      ensures changed <==> IsChange(old(Known(service)), state)
      ensures var p := Poll(service, state, shouldAlert, now);
              notify <==> Notifies(old(Known(service)), old(LastAlert(service)), cooldown, p)
      ensures recovery <==> changed && state == OK
      ensures lastState == old(lastState)[service := state]
      ensures lastAlertTime == if notify then old(lastAlertTime)[service := now] else old(lastAlertTime)
    {
      var before := Known(service);
      lastState := lastState[service := state];
      if before == Some(state) || (before == None && state == OK) {
        return false, false, false;
      }
      changed, notify, recovery := true, false, false;
      if state != OK {
        if shouldAlert && now - LastAlert(service) >= cooldown {
          lastAlertTime := lastAlertTime[service := now];
          notify := true;
        }
      } else if before.Some? && before.value != OK {
        recovery := true;
      }
    }

    /** Tracks every poll; notifies on a change to non-ok that is wanted and not too soon. */
    method CheckAndAlert(service: string, state: Status, shouldAlert: bool, now: real)
      requires Valid()
      modifies this
      ensures Valid() && polls == old(polls) + [Poll(service, state, shouldAlert, now)]
      ensures lastState == old(lastState)[service := state]
      ensures var states, stamps := StatesOf(old(polls), service), StampsOf(old(sent), service);
              var notified := && state != OK && (states == [] || Last(states) != state)
                              && shouldAlert && now - Latest(stamps) >= cooldown;
              sent == old(sent) + if notified then [Notification(service, now)] else []
      ensures var changed := if service in old(lastState) then old(lastState)[service] != state else state != 0;
              var last := if service in old(lastAlertTime) then old(lastAlertTime)[service] else 0.0;
              var notified := changed && state != 0 && shouldAlert && now - last >= cooldown;
              && events == old(events) + (if changed then [Event(service, State(state))] else [])
                                       + (if changed && state == 0 then [Event(service, Recovered)] else [])
              && sent == old(sent) + (if notified then [Notification(service, now)] else [])
              && lastAlertTime == if notified then old(lastAlertTime)[service := now] else old(lastAlertTime)
    {
      MemoryIsLast(polls, events, sent, cooldown, lastState, lastAlertTime, service);
      var poll := Poll(service, state, shouldAlert, now);
      var changed, notify, recovery := Track(service, state, shouldAlert, now);
      PollStep(polls, events, sent, cooldown, old(lastState), old(lastAlertTime), poll, changed, notify);
      Emit(poll, changed, notify, recovery);
      AddedPlainly(old(events), poll, changed);
      polls := polls + [poll];
    }

    /** What follows outside the lock: the event, then the notification or the recovery. */
    method Emit(poll: Poll, changed: bool, notify: bool, recovery: bool)
      requires notify ==> changed
      requires recovery <==> changed && poll.state == OK
      requires notify ==> poll.state != OK
      modifies this`events, this`sent
      ensures events == old(events) + Added(poll, changed)
      ensures sent == old(sent) + Sent(poll, notify)
    {
      if !changed {
        return;
      }
      events := events + [Event(poll.service, State(poll.state))];
      if notify {
        sent := sent + [Notification(poll.service, poll.at)];
      } else if recovery {
        events := events + [Event(poll.service, Recovered)];
      }
    }
  }
}
