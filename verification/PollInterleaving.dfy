/**
  Polls that overlap. Each writes the dashboard's store first and reaches the engine's locked
  section later, with nothing held in between, so two polls of a service may reach the two
  in opposite orders. Polls are numbered in the order they write the store.
*/
module PollInterleaving {
  import opened Options
  import opened Seqs
  import opened Evaluator
  import opened Alerts

  datatype Outcome = Outcome(service: string, status: Status)

  /** Poll k wrote written[k]; `tracked` are the polls the engine has seen, in its order. */
  datatype Views = Views(statuses: map<string, Status>, lastState: map<string, Status>,
                         written: seq<Outcome>, tracked: seq<nat>)

  const START := Views(map[], map[], [], [])

  datatype Step = Store(o: Outcome) | Track(poll: nat)

  predicate Enabled(s: Views, step: Step) {
    step.Track? ==> step.poll < |s.written| && step.poll !in s.tracked
  }

  function Next(s: Views, step: Step): Views
    requires Enabled(s, step)
  {
    match step
    case Store(o) => s.(statuses := s.statuses[o.service := o.status], written := s.written + [o])
    case Track(k) =>
      var o := s.written[k];
      s.(lastState := s.lastState[o.service := o.status], tracked := s.tracked + [k])
  }

  /** Where the steps lead, if each is possible when it is taken. */
  ghost function Exec(steps: seq<Step>): Option<Views> {
    if steps == [] then Some(START)
    else
      match Exec(Init(steps))
      case None => None
      case Some(before) => if Enabled(before, Last(steps)) then Some(Next(before, Last(steps))) else None
  }

  /** The latest poll of the service to write the store. */
  function LastWritten(written: seq<Outcome>, service: string): Option<nat> {
    if written == [] then None
    else if Last(written).service == service then Some(|written| - 1)
    else LastWritten(Init(written), service)
  }

  predicate InRange(s: Views) {
    forall i :: 0 <= i < |s.tracked| ==> s.tracked[i] < |s.written|
  }

  /** The latest poll of the service that the engine has seen. */
  function LastTracked(written: seq<Outcome>, tracked: seq<nat>, service: string): Option<nat>
    requires forall i :: 0 <= i < |tracked| ==> tracked[i] < |written|
  {
    if tracked == [] then None
    else if written[Last(tracked)].service == service then Some(Last(tracked))
    else LastTracked(written, Init(tracked), service)
  }

  lemma {:induction false} LastWrittenIs(written: seq<Outcome>, service: string)
    ensures match LastWritten(written, service)
            case None => forall k :: 0 <= k < |written| ==> written[k].service != service
            case Some(k) => && k < |written| && written[k].service == service
                            && forall j :: k < j < |written| ==> written[j].service != service
  {
    if written != [] {
      LastWrittenIs(Init(written), service);
    }
  }

  lemma {:induction false} LastTrackedIs(written: seq<Outcome>, tracked: seq<nat>, service: string)
    requires forall i :: 0 <= i < |tracked| ==> tracked[i] < |written|
    ensures match LastTracked(written, tracked, service)
            case None => forall i :: 0 <= i < |tracked| ==> written[tracked[i]].service != service
            case Some(k) => exists i :: && 0 <= i < |tracked| && tracked[i] == k && written[k].service == service
                                        && forall j :: i < j < |tracked| ==> written[tracked[j]].service != service
  {
    if tracked != [] {
      var n := |tracked| - 1;
      if written[tracked[n]].service == service {
        assert tracked[n] == Last(tracked);
      } else {
        LastTrackedIs(written, Init(tracked), service);
        if LastTracked(written, Init(tracked), service).Some? {
          var i :| && 0 <= i < n && tracked[i] == LastTracked(written, Init(tracked), service).value
                   && forall j :: i < j < n ==> written[Init(tracked)[j]].service != service;
          assert forall j :: i < j < |tracked| ==> j == n || tracked[j] == Init(tracked)[j];
        }
      }
    }
  }

  lemma {:induction false} MoreWritten(written: seq<Outcome>, o: Outcome, tracked: seq<nat>, service: string)
    requires forall i :: 0 <= i < |tracked| ==> tracked[i] < |written|
    ensures LastTracked(written + [o], tracked, service) == LastTracked(written, tracked, service)
  {
    if tracked != [] {
      MoreWritten(written, o, Init(tracked), service);
    }
  }

  function StatusAt(written: seq<Outcome>, k: Option<nat>): Option<Status>
    requires k.Some? ==> k.value < |written|
  {
    if k.Some? then Some(written[k.value].status) else None
  }

  /** Dashboard and engine each show a service's latest poll, by their own order. */
  ghost predicate ShowLast(s: Views, service: string)
    requires InRange(s)
  {
    var w, t := LastWritten(s.written, service), LastTracked(s.written, s.tracked, service);
    && (w.Some? ==> w.value < |s.written|) && (t.Some? ==> t.value < |s.written|)
    && KnownIn(s.statuses, service) == StatusAt(s.written, w)
    && KnownIn(s.lastState, service) == StatusAt(s.written, t)
  }

  lemma {:induction false} StoreShows(s: Views, o: Outcome, service: string)
    requires InRange(s) && ShowLast(s, service)
    ensures InRange(Next(s, Store(o))) && ShowLast(Next(s, Store(o)), service)
  {
    assert Init(s.written + [o]) == s.written;
    MoreWritten(s.written, o, s.tracked, service);
  }

  lemma {:induction false} TrackShows(s: Views, k: nat, service: string)
    requires InRange(s) && ShowLast(s, service) && Enabled(s, Track(k))
    ensures InRange(Next(s, Track(k))) && ShowLast(Next(s, Track(k)), service)
  {
    assert Init(s.tracked + [k]) == s.tracked;
  }

  lemma {:induction false} EachShowsItsLast(steps: seq<Step>, s: Views, service: string)
    requires Exec(steps) == Some(s)
    ensures InRange(s) && ShowLast(s, service)
  {
    if steps != [] {
      var before := Exec(Init(steps)).value;
      EachShowsItsLast(Init(steps), before, service);
      match Last(steps)
      case Store(o) => StoreShows(before, o, service);
      case Track(k) => TrackShows(before, k, service);
    }
  }

  /** The i-th poll that the engine saw is one of the service. */
  predicate IsOf(s: Views, i: nat, service: string)
    requires InRange(s) && i < |s.tracked|
  {
    s.written[s.tracked[i]].service == service
  }

  /** The engine has seen every poll of the service, in the order they wrote the store. */
  predicate DoneInOrder(s: Views, service: string)
    requires InRange(s)
  {
    && (forall k :: 0 <= k < |s.written| && s.written[k].service == service ==> k in s.tracked)
    && forall i, j :: 0 <= i < j < |s.tracked| && IsOf(s, i, service) && IsOf(s, j, service) ==>
         s.tracked[i] < s.tracked[j]
  }

  lemma {:induction false} SameLast(s: Views, service: string)
    requires InRange(s) && DoneInOrder(s, service)
    ensures LastTracked(s.written, s.tracked, service) == LastWritten(s.written, service)
  {
    LastWrittenIs(s.written, service);
    LastTrackedIs(s.written, s.tracked, service);
    var w, t := LastWritten(s.written, service), LastTracked(s.written, s.tracked, service);
    if w.Some? {
      var i :| 0 <= i < |s.tracked| && s.tracked[i] == w.value;
      var n :| && 0 <= n < |s.tracked| && s.tracked[n] == t.value && s.written[t.value].service == service
               && forall j :: n < j < |s.tracked| ==> s.written[s.tracked[j]].service != service;
      assert IsOf(s, i, service) && IsOf(s, n, service);
      assert i <= n;
    }
  }

  /**
    Dashboard and engine may differ about a service only while its polls overlap or after they
    reached the engine out of order: they show the same exactly when the latest poll of each
    had the same status, and so once the polls are done in one order.
  */
  lemma {:induction false} ViewsAgree(steps: seq<Step>, s: Views, service: string)
    requires Exec(steps) == Some(s)
    ensures InRange(s) && ShowLast(s, service)
    ensures KnownIn(s.statuses, service) == KnownIn(s.lastState, service) <==>
              StatusAt(s.written, LastWritten(s.written, service))
                == StatusAt(s.written, LastTracked(s.written, s.tracked, service))
    ensures DoneInOrder(s, service) ==> KnownIn(s.statuses, service) == KnownIn(s.lastState, service)
  {
    EachShowsItsLast(steps, s, service);
    if DoneInOrder(s, service) {
      SameLast(s, service);
    }
  }

  /** Otherwise they can differ for good: all polls done, the dashboard at ok and the engine at critical. */
  lemma {:induction false} ViewsMayDiffer(service: string) returns (steps: seq<Step>, s: Views)
    ensures Exec(steps) == Some(s) && |s.tracked| == |s.written|
    ensures KnownIn(s.statuses, service) == Some(OK) && KnownIn(s.lastState, service) == Some(CRITICAL)
  {
    var bad, good := Outcome(service, CRITICAL), Outcome(service, OK);
    steps, s := StepLeads([], START, Store(bad));
    steps, s := StepLeads(steps, s, Store(good));
    assert s.written == [bad, good];
    steps, s := StepLeads(steps, s, Track(1));
    steps, s := StepLeads(steps, s, Track(0));
  }

  lemma {:induction false} StepLeads(steps: seq<Step>, s: Views, step: Step) returns (steps': seq<Step>, s': Views)
    requires Exec(steps) == Some(s) && Enabled(s, step)
    ensures Exec(steps') == Some(s') && s' == Next(s, step)
  {
    steps', s' := steps + [step], Next(s, step);
    assert Init(steps') == steps;
  }
}
