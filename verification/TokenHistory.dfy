/**
  What an interleaved run has to do with the log of a sequential store. Every committed
  creation and deletion of the run and every one-time acceptance is an event, in commit order;
  every version has its past, the events committed while it was current or before. That log
  decides what each version answers, for whoever asks no earlier than the latest purge.
*/
module TokenHistory {
  import opened Seqs
  import opened Tokens
  import opened TokenTransactions

  /** The events committed up to a version, the events that created its rows, and the latest purge time. */
  datatype Past = Past(log: seq<Event>, origin: map<int, nat>, purged: int)

  const BEGINNING := Past([], map[], 0)

  // ---------------------------------------------------------------- the history of a run

  /** The commit succeeds and removes its row. */
  predicate Consumes(db: Db, call: nat)
    requires call in db.calls
  {
    db.calls[call].Consuming? && db.calls[call].version == |db.tables| - 1
  }

  /** What a step commits, as a log sees it. A purge is no event, nor is an acceptance that ends nothing. */
  function EventsOf(hash: string -> string, db: Db, step: Step): seq<Event>
    requires Enabled(hash, db, step)
  {
    match step
    case Create(_, token) => [token]
    case DeleteByUsername(username) => [Deleted(username)]
    case Commit(call) =>
      if Consumes(db, call) then [Accepted(db.calls[call].row.username, db.calls[call].row.plain)] else []
    case _ => []
  }

  function ExpiredIds(rows: Table, now: int): set<int> {
    set id | id in rows && Expired(rows[id].expiresAt, now)
  }

  function IdsOf(rows: Table, username: string): set<int> {
    set id | id in rows && rows[id].username == username
  }

  function OriginAfter(hash: string -> string, db: Db, p: Past, step: Step): map<int, nat>
    requires Enabled(hash, db, step)
  {
    var rows := Last(db.tables);
    match step
    case Create(id, _) => p.origin[id := |p.log|]
    case Purge(now) => p.origin - ExpiredIds(rows, now)
    case DeleteByUsername(username) => p.origin - IdsOf(rows, username)
    case Commit(call) => if Consumes(db, call) then p.origin - {db.calls[call].id} else p.origin
    case _ => p.origin
  }

  /** Only a purge moves the purge time, and only to its own. */
  function PurgedBy(purged: int, step: Step): int {
    if step.Purge? && purged < step.now then step.now else purged
  }

  function PastAfter(hash: string -> string, db: Db, p: Past, step: Step): Past
    requires Enabled(hash, db, step)
  {
    Past(p.log + EventsOf(hash, db, step), OriginAfter(hash, db, p, step), PurgedBy(p.purged, step))
  }

  /** A new version has a past of its own; otherwise the current version's goes on. */
  function NextPasts(hash: string -> string, db: Db, pasts: seq<Past>, step: Step): seq<Past>
    requires Enabled(hash, db, step) && pasts != []
  {
    var past := PastAfter(hash, db, Last(pasts), step);
    if |Next(hash, db, step).tables| > |db.tables| then pasts + [past] else Init(pasts) + [past]
  }

  /** The run of these steps ends in db, with these pasts; they are determined by the steps. */
  ghost predicate History(hash: string -> string, steps: seq<Step>, db: Db, pasts: seq<Past>) {
    if steps == [] then db == EMPTY && pasts == [BEGINNING]
    else exists before, earlier ::
      && History(hash, Init(steps), before, earlier) && earlier != []
      && Enabled(hash, before, Last(steps)) && db == Next(hash, before, Last(steps))
      && pasts == NextPasts(hash, before, earlier, Last(steps))
  }

  /** Every run has a history, and whatever has a history is a run. */
  lemma {:induction false} RunHasHistory(hash: string -> string, steps: seq<Step>, db: Db) returns (pasts: seq<Past>)
    requires Reachable(hash, steps, db)
    ensures History(hash, steps, db, pasts) && pasts != []
  {
    if steps == [] {
      pasts := [BEGINNING];
    } else {
      var before :| Reachable(hash, Init(steps), before)
        && Enabled(hash, before, Last(steps)) && db == Next(hash, before, Last(steps));
      var earlier := RunHasHistory(hash, Init(steps), before);
      pasts := NextPasts(hash, before, earlier, Last(steps));
    }
  }

  lemma {:induction false} LastStep(hash: string -> string, steps: seq<Step>, db: Db, pasts: seq<Past>)
    returns (before: Db, earlier: seq<Past>)
    requires History(hash, steps, db, pasts) && steps != []
    ensures History(hash, Init(steps), before, earlier) && earlier != []
    ensures Enabled(hash, before, Last(steps)) && db == Next(hash, before, Last(steps))
    ensures pasts == NextPasts(hash, before, earlier, Last(steps))
  {
    before, earlier :|
      && History(hash, Init(steps), before, earlier) && earlier != []
      && Enabled(hash, before, Last(steps)) && db == Next(hash, before, Last(steps))
      && pasts == NextPasts(hash, before, earlier, Last(steps));
  }

  lemma {:induction false} HistoryIsRun(hash: string -> string, steps: seq<Step>, db: Db, pasts: seq<Past>)
    requires History(hash, steps, db, pasts)
    ensures Reachable(hash, steps, db)
  {
    if steps != [] {
      var before, earlier := LastStep(hash, steps, db, pasts);
      HistoryIsRun(hash, Init(steps), before, earlier);
    }
  }

  /** The latest purge of the run, or 0 if it never purges. */
  function LastPurge(steps: seq<Step>): int {
    if steps == [] then 0 else PurgedBy(LastPurge(Init(steps)), Last(steps))
  }

  /** An event of the log is a step of the run. */
  predicate Happened(steps: seq<Step>, e: Event) {
    exists i :: 0 <= i < |steps| && Commits(steps[i], e)
  }

  predicate Commits(step: Step, e: Event) {
    match e
    case Created(_, _, _, _, _) => step.Create? && step.token == e
    case Deleted(username) => step == DeleteByUsername(username)
    case Accepted(_, _) => step.Commit?
  }

  /** Its events are steps, the steps' creations and deletions are in it, and its purge time is their latest. */
  ghost predicate IsPastOf(steps: seq<Step>, p: Past) {
    && p.purged == LastPurge(steps) && (forall e :: e in p.log ==> Happened(steps, e))
    && (forall i :: 0 <= i < |steps| && steps[i].Create? ==> steps[i].token in p.log)
    && (forall i :: 0 <= i < |steps| && steps[i].DeleteByUsername? ==> Deleted(steps[i].username) in p.log)
  }

  /** The log is the run's own. */
  lemma {:induction false} LogIsTheRuns(hash: string -> string, steps: seq<Step>, db: Db, pasts: seq<Past>)
    requires History(hash, steps, db, pasts)
    ensures pasts != [] && IsPastOf(steps, Last(pasts))
  {
    if steps != [] {
      var before, earlier := LastStep(hash, steps, db, pasts);
      LogIsTheRuns(hash, Init(steps), before, earlier);
      StepIsLogged(hash, steps, before, Last(earlier));
    }
  }

  lemma {:induction false} StepIsLogged(hash: string -> string, steps: seq<Step>, before: Db, p: Past)
    requires steps != [] && Enabled(hash, before, Last(steps)) && IsPastOf(Init(steps), p)
    ensures IsPastOf(steps, PastAfter(hash, before, p, Last(steps)))
  {
    var more := EventsOf(hash, before, Last(steps));
    forall e | e in p.log + more ensures Happened(steps, e) {
      if e in p.log {
        var i :| 0 <= i < |Init(steps)| && Commits(Init(steps)[i], e);
        assert Commits(steps[i], e);
      } else {
        assert e in more && Commits(steps[|steps| - 1], e);
      }
    }
    assert forall i :: 0 <= i < |steps| - 1 ==> steps[i] == Init(steps)[i];
    assert Last(steps).Create? ==> Last(steps).token in more;
    assert Last(steps).DeleteByUsername? ==> Deleted(Last(steps).username) in more;
  }

  // ---------------------------------------------------------------- what a history records

  /** The one-time acceptances, as log events. */
  function Consumptions(accepted: seq<Acceptance>): seq<Event> {
    if accepted == [] then []
    else
      var a := Last(accepted);
      Consumptions(Init(accepted)) + if a.row.oneTime then [Accepted(a.row.username, a.row.plain)] else []
  }

  function AcceptedIn(log: seq<Event>): seq<Event> {
    if log == [] then []
    else AcceptedIn(Init(log)) + if Last(log).Accepted? then [Last(log)] else []
  }

  /** Time only adds events, and purges only later ones. */
  predicate Extends(before: Past, after: Past) {
    before.purged <= after.purged && before.log <= after.log
  }

  predicate IssuedOnly(log: seq<Event>, issued: map<string, Row>) {
    forall i :: 0 <= i < |log| && log[i].Created? ==> log[i].plain in issued
  }

  ghost predicate AllTrack(hash: string -> string, tables: seq<Table>, pasts: seq<Past>) {
    && |pasts| == |tables| > 0
    && (forall v :: 0 <= v < |pasts| ==> Tracks(hash, tables[v], pasts[v].origin, pasts[v].log, pasts[v].purged))
    && forall v :: 0 < v < |pasts| ==> Extends(pasts[v - 1], pasts[v])
  }

  /** The version after the one committed on goes on with exactly this consumption. */
  predicate ConsumedAt(pasts: seq<Past>, a: Acceptance) {
    && a.until + 1 < |pasts|
    && pasts[a.until].log + [Accepted(a.row.username, a.row.plain)] <= pasts[a.until + 1].log
  }

  ghost predicate AllConsumed(pasts: seq<Past>, accepted: seq<Acceptance>) {
    forall i :: 0 <= i < |accepted| && accepted[i].row.oneTime ==> ConsumedAt(pasts, accepted[i])
  }

  /** Each past accounts for its version, and every consumption is in its place. */
  ghost predicate Records(hash: string -> string, db: Db, pasts: seq<Past>) {
    && AllTrack(hash, db.tables, pasts) && IssuedOnly(Last(pasts).log, db.issued)
    && AcceptedIn(Last(pasts).log) == Consumptions(db.accepted) && AllConsumed(pasts, db.accepted)
  }

  lemma {:induction false} AcceptedStep(log: seq<Event>, e: Event)
    ensures AcceptedIn(log + [e]) == AcceptedIn(log) + if e.Accepted? then [e] else []
  {
    assert Init(log + [e]) == log;
  }

  lemma {:induction false} ConsumptionsStep(accepted: seq<Acceptance>, a: Acceptance)
    ensures Consumptions(accepted + [a]) == Consumptions(accepted) +
              if a.row.oneTime then [Accepted(a.row.username, a.row.plain)] else []
  {
    assert Init(accepted + [a]) == accepted;
  }

  // ---------------------------------------------------------------- one step for the current version

  /** The step's own past accounts for the rows it leaves. */
  ghost predicate Carries(hash: string -> string, db: Db, p: Past, step: Step)
    requires Enabled(hash, db, step)
  {
    var p', db' := PastAfter(hash, db, p, step), Next(hash, db, step);
    && Tracks(hash, Last(db'.tables), p'.origin, p'.log, p'.purged) && IssuedOnly(p'.log, db'.issued)
    && (if |db'.tables| > |db.tables| then db'.tables == db.tables + [Last(db'.tables)] else db'.tables == db.tables)
  }

  lemma {:induction false} CreateCarries(hash: string -> string, db: Db, p: Past, step: Step)
    requires step.Create? && Enabled(hash, db, step) && IssuedOnly(p.log, db.issued)
    requires Tracks(hash, Last(db.tables), p.origin, p.log, p.purged)
    ensures Carries(hash, db, p, step)
  {
    var rows := Last(db.tables);
    assert step.id !in rows.Keys;
    TracksAdded(hash, rows, p.origin, p.log, p.purged, step.id, step.token);
    assert step.id in rows[step.id := RowOf(hash, step.token)];
  }

  lemma {:induction false} PurgeTracks(hash: string -> string, rows: Table, p: Past, now: int)
    requires Tracks(hash, rows, p.origin, p.log, p.purged)
    ensures Unexpired(rows, now) == rows - ExpiredIds(rows, now)
    ensures Tracks(hash, Unexpired(rows, now), p.origin - ExpiredIds(rows, now), p.log, PurgedBy(p.purged, Purge(now)))
  {
    var late := PurgedBy(p.purged, Purge(now));
    assert Unexpired(rows, now) == rows - ExpiredIds(rows, now);
    TracksLater(hash, rows, p.origin, p.log, p.purged, late);
    TracksPurged(hash, rows, p.origin, p.log, late, ExpiredIds(rows, now));
  }

  lemma {:induction false} PurgeCarries(hash: string -> string, db: Db, p: Past, step: Step)
    requires step.Purge? && Enabled(hash, db, step) && IssuedOnly(p.log, db.issued)
    requires Tracks(hash, Last(db.tables), p.origin, p.log, p.purged)
    ensures Carries(hash, db, p, step)
  {
    PurgeTracks(hash, Last(db.tables), p, step.now);
    assert p.log + [] == p.log;
  }

  lemma {:induction false} DeleteTracks(hash: string -> string, rows: Table, p: Past, username: string)
    requires Tracks(hash, rows, p.origin, p.log, p.purged)
    ensures OfOthers(rows, username) == rows - IdsOf(rows, username)
    ensures Tracks(hash, OfOthers(rows, username), p.origin - IdsOf(rows, username), p.log + [Deleted(username)],
                   p.purged)
  {
    assert OfOthers(rows, username) == rows - IdsOf(rows, username);
    TracksEnded(hash, rows, p.origin, p.log, p.purged, Deleted(username), IdsOf(rows, username));
  }

  lemma {:induction false} DeleteCarries(hash: string -> string, db: Db, p: Past, step: Step)
    requires step.DeleteByUsername? && Enabled(hash, db, step) && IssuedOnly(p.log, db.issued)
    requires Tracks(hash, Last(db.tables), p.origin, p.log, p.purged)
    ensures Carries(hash, db, p, step)
  {
    DeleteTracks(hash, Last(db.tables), p, step.username);
  }

  /** A commit that consumes: the row it read is still there, and goes. */
  lemma {:induction false} ConsumingCommit(hash: string -> string, db: Db, call: nat)
    requires Inv(hash, db) && Enabled(hash, db, Commit(call)) && Consumes(db, call)
    ensures var c, rows, db' := db.calls[call], Last(db.tables), Next(hash, db, Commit(call));
            && c.row.oneTime && c.id in rows && rows[c.id] == c.row
            && db'.tables == db.tables + [rows - {c.id}] && db'.issued == db.issued
            && db'.accepted == db.accepted + [Acceptance(c.q, c.version, c.id, c.row, |db.tables| - 1)]
  {
    var c := db.calls[call];
    assert CallTrue(hash, db.tables, c);
    assert c.id in Last(db.tables) && c.id !in Last(db.tables) - {c.id};
  }

  lemma {:induction false} CommitCarries(hash: string -> string, db: Db, p: Past, step: Step)
    requires step.Commit? && Inv(hash, db) && Enabled(hash, db, step) && IssuedOnly(p.log, db.issued)
    requires Tracks(hash, Last(db.tables), p.origin, p.log, p.purged)
    ensures Carries(hash, db, p, step)
  {
    if Consumes(db, step.call) {
      var c := db.calls[step.call];
      ConsumingCommit(hash, db, step.call);
      TracksAccepted(hash, Last(db.tables), p.origin, p.log, p.purged, c.id, Accepted(c.row.username, c.row.plain));
    } else {
      assert p.log + [] == p.log;
    }
  }

  lemma {:induction false} StepCarries(hash: string -> string, db: Db, p: Past, step: Step)
    requires Inv(hash, db) && Enabled(hash, db, step) && IssuedOnly(p.log, db.issued)
    requires Tracks(hash, Last(db.tables), p.origin, p.log, p.purged)
    ensures Carries(hash, db, p, step)
  {
    match step
    case Create(_, _) => CreateCarries(hash, db, p, step);
    case Purge(_) => PurgeCarries(hash, db, p, step);
    case DeleteByUsername(_) => DeleteCarries(hash, db, p, step);
    case Commit(_) => CommitCarries(hash, db, p, step);
    case Begin(_, _, _, _) => assert p.log + [] == p.log;
    case Select(_, _) => assert p.log + [] == p.log;
    case Consume(_) => assert p.log + [] == p.log;
    case Refuse(_) => assert p.log + [] == p.log;
    case Rollback(_) => assert p.log + [] == p.log;
  }

  // ---------------------------------------------------------------- one step for all versions

  lemma {:induction false} TrackAdded(hash: string -> string, tables: seq<Table>, pasts: seq<Past>, rows: Table,
                                      past: Past)
    requires AllTrack(hash, tables, pasts) && Extends(Last(pasts), past)
    requires Tracks(hash, rows, past.origin, past.log, past.purged)
    ensures AllTrack(hash, tables + [rows], pasts + [past])
  {
  }

  lemma {:induction false} TrackReplaced(hash: string -> string, tables: seq<Table>, pasts: seq<Past>, past: Past)
    requires AllTrack(hash, tables, pasts) && Extends(Last(pasts), past)
    requires Tracks(hash, Last(tables), past.origin, past.log, past.purged)
    ensures AllTrack(hash, tables, Init(pasts) + [past])
  {
    var pasts' := Init(pasts) + [past];
    assert forall v :: 0 <= v < |pasts| - 1 ==> pasts'[v] == pasts[v];
    forall v | 0 < v < |pasts'| ensures Extends(pasts'[v - 1], pasts'[v]) {
      assert Extends(pasts[v - 1], pasts[v]);
    }
  }

  lemma {:induction false} ConsumedStay(pasts: seq<Past>, past: Past, accepted: seq<Acceptance>)
    requires AllConsumed(pasts, accepted)
    ensures AllConsumed(pasts + [past], accepted)
    ensures pasts != [] && Extends(Last(pasts), past) ==> AllConsumed(Init(pasts) + [past], accepted)
  {
    forall i | 0 <= i < |accepted| && accepted[i].row.oneTime
      ensures ConsumedAt(pasts + [past], accepted[i])
      ensures pasts != [] && Extends(Last(pasts), past) ==> ConsumedAt(Init(pasts) + [past], accepted[i])
    {
      assert ConsumedAt(pasts, accepted[i]);
    }
  }

  /** The acceptances a step adds are the consumptions its events add. */
  lemma {:induction false} StepAccepts(hash: string -> string, db: Db, p: Past, step: Step)
    requires Inv(hash, db) && Enabled(hash, db, step) && AcceptedIn(p.log) == Consumptions(db.accepted)
    ensures AcceptedIn(PastAfter(hash, db, p, step).log) == Consumptions(Next(hash, db, step).accepted)
  {
    var events := EventsOf(hash, db, step);
    if events == [] {
      assert p.log + [] == p.log;
    } else {
      AcceptedStep(p.log, events[0]);
      assert events == [events[0]];
    }
    if step.Commit? {
      var c := db.calls[step.call];
      ConsumptionsStep(db.accepted, Acceptance(c.q, c.version, c.id, c.row, |db.tables| - 1));
      assert CallTrue(hash, db.tables, c);
    }
  }

  lemma {:induction false} StepConsumes(hash: string -> string, db: Db, pasts: seq<Past>, step: Step)
    requires Inv(hash, db) && Enabled(hash, db, step) && |pasts| == |db.tables| && AllConsumed(pasts, db.accepted)
    ensures AllConsumed(NextPasts(hash, db, pasts, step), Next(hash, db, step).accepted)
  {
    var past := PastAfter(hash, db, Last(pasts), step);
    PastGrows(hash, db, Last(pasts), step);
    ConsumedStay(pasts, past, db.accepted);
    if step.Commit? && Consumes(db, step.call) {
      ConsumingCommit(hash, db, step.call);
      assert ConsumedAt(pasts + [past], Last(Next(hash, db, step).accepted));
    }
  }

  lemma {:induction false} PastGrows(hash: string -> string, db: Db, p: Past, step: Step)
    requires Enabled(hash, db, step)
    ensures Extends(p, PastAfter(hash, db, p, step))
  {
  }

  lemma {:induction false} StepTracks(hash: string -> string, db: Db, pasts: seq<Past>, step: Step)
    requires Inv(hash, db) && Enabled(hash, db, step)
    requires AllTrack(hash, db.tables, pasts) && IssuedOnly(Last(pasts).log, db.issued)
    ensures AllTrack(hash, Next(hash, db, step).tables, NextPasts(hash, db, pasts, step))
    ensures IssuedOnly(PastAfter(hash, db, Last(pasts), step).log, Next(hash, db, step).issued)
  {
    var past, db' := PastAfter(hash, db, Last(pasts), step), Next(hash, db, step);
    PastGrows(hash, db, Last(pasts), step);
    StepCarries(hash, db, Last(pasts), step);
    if |db'.tables| > |db.tables| {
      TrackAdded(hash, db.tables, pasts, Last(db'.tables), past);
    } else {
      TrackReplaced(hash, db.tables, pasts, past);
    }
  }

  lemma {:induction false} RecordsFrom(hash: string -> string, db: Db, pasts: seq<Past>, past: Past)
    requires AllTrack(hash, db.tables, pasts) && Last(pasts) == past && IssuedOnly(past.log, db.issued)
    requires AcceptedIn(past.log) == Consumptions(db.accepted) && AllConsumed(pasts, db.accepted)
    ensures Records(hash, db, pasts)
  {
  }

  lemma {:induction false} LastNext(hash: string -> string, db: Db, pasts: seq<Past>, step: Step)
    requires Enabled(hash, db, step) && pasts != []
    ensures NextPasts(hash, db, pasts, step) != []
    ensures Last(NextPasts(hash, db, pasts, step)) == PastAfter(hash, db, Last(pasts), step)
  {
  }

  lemma {:induction false} StepRecorded(hash: string -> string, db: Db, pasts: seq<Past>, step: Step)
    requires Inv(hash, db) && Enabled(hash, db, step) && Records(hash, db, pasts)
    ensures Records(hash, Next(hash, db, step), NextPasts(hash, db, pasts, step))
  {
    StepTracks(hash, db, pasts, step);
    StepAccepts(hash, db, Last(pasts), step);
    StepConsumes(hash, db, pasts, step);
    LastNext(hash, db, pasts, step);
    RecordsFrom(hash, Next(hash, db, step), NextPasts(hash, db, pasts, step), PastAfter(hash, db, Last(pasts), step));
  }

  lemma {:induction false} HistoryRecords(hash: string -> string, steps: seq<Step>, db: Db, pasts: seq<Past>)
    requires History(hash, steps, db, pasts)
    ensures Records(hash, db, pasts)
  {
    if steps == [] {
      assert Tracks(hash, map[], map[], [], 0);
    } else {
      var before, earlier := LastStep(hash, steps, db, pasts);
      HistoryIsRun(hash, Init(steps), before, earlier);
      ReachableHasInv(hash, Init(steps), before);
      HistoryRecords(hash, Init(steps), before, earlier);
      StepRecorded(hash, before, earlier, Last(steps));
    }
  }

  lemma {:induction false} LogsGrow(hash: string -> string, tables: seq<Table>, pasts: seq<Past>, u: nat, v: nat)
    requires AllTrack(hash, tables, pasts) && u <= v < |pasts|
    ensures Extends(pasts[u], pasts[v])
  {
    if u < v {
      LogsGrow(hash, tables, pasts, u, v - 1);
      assert Extends(pasts[v - 1], pasts[v]);
    }
  }

  // ---------------------------------------------------------------- what the log decides

  lemma {:induction false} TableAnswersLikeItsLog(hash: string -> string, rows: Table, p: Past, q: Query)
    requires Injective(hash) && Tracks(hash, rows, p.origin, p.log, p.purged)
    ensures Answers(hash, rows, q) ==> Good(p.log, q.username, q.password, q.now)
    ensures p.purged <= q.now ==> (Answers(hash, rows, q) <==> Good(p.log, q.username, q.password, q.now))
  {
    if p.purged <= q.now {
      TracksLater(hash, rows, p.origin, p.log, p.purged, q.now);
      MatchIsGood(hash, rows, p.origin, p.log, q.now, q.username, q.password);
    } else if Answers(hash, rows, q) {
      var id :| id in rows && MatchesQuery(hash, rows[id], q);
      assert Active(p.log, p.origin[id], q.username, q.now);
    }
  }

  lemma {:induction false} VersionFacts(hash: string -> string, steps: seq<Step>, db: Db, pasts: seq<Past>, v: nat)
    requires History(hash, steps, db, pasts) && v < |db.tables|
    ensures |pasts| == |db.tables| && pasts[v].log <= Last(pasts).log && pasts[v].purged <= LastPurge(steps)
    ensures Tracks(hash, db.tables[v], pasts[v].origin, pasts[v].log, pasts[v].purged)
  {
    HistoryRecords(hash, steps, db, pasts);
    LogIsTheRuns(hash, steps, db, pasts);
    LogsGrow(hash, db.tables, pasts, v, |pasts| - 1);
  }

  /** A version answers as the run's log up to it does, for whoever asks no earlier than the run's latest purge. */
  lemma {:induction false} VersionAnswersLikeItsLog(hash: string -> string, steps: seq<Step>, db: Db, pasts: seq<Past>,
                                                    v: nat, q: Query)
    requires Injective(hash) && History(hash, steps, db, pasts) && v < |db.tables|
    ensures |pasts| == |db.tables| && pasts[v].log <= Last(pasts).log
    ensures Answers(hash, db.tables[v], q) ==> Good(pasts[v].log, q.username, q.password, q.now)
    ensures LastPurge(steps) <= q.now ==>
              (Answers(hash, db.tables[v], q) <==> Good(pasts[v].log, q.username, q.password, q.now))
  {
    VersionFacts(hash, steps, db, pasts, v);
    TableAnswersLikeItsLog(hash, db.tables[v], pasts[v], q);
  }

  /**
    Every acceptance was good by the run's log at its snapshot, and a one-time token is good by
    the log of no later version: the interleaved run answers as a sequential one would.
  */
  lemma {:induction false} AcceptanceIsGood(hash: string -> string, steps: seq<Step>, db: Db, pasts: seq<Past>,
                                            a: Acceptance)
    requires Injective(hash) && History(hash, steps, db, pasts) && a in db.accepted
    ensures a.version < |pasts| && Good(pasts[a.version].log, a.q.username, a.q.password, a.q.now)
    ensures a.row.oneTime ==> a.version == a.until && ConsumedAt(pasts, a)
    ensures a.row.oneTime ==> forall v, now ::
              a.until < v < |pasts| ==> !Good(pasts[v].log, a.q.username, a.q.password, now)
  {
    HistoryIsRun(hash, steps, db, pasts);
    AcceptanceIsJustified(hash, steps, db, a);
    assert MatchesQuery(hash, db.tables[a.version][a.id], a.q);
    VersionAnswersLikeItsLog(hash, steps, db, pasts, a.version, a.q);
    if a.row.oneTime {
      HistoryRecords(hash, steps, db, pasts);
      var i :| 0 <= i < |db.accepted| && db.accepted[i] == a;
      assert ConsumedAt(pasts, a);
      forall v, now | a.until < v < |pasts| ensures !Good(pasts[v].log, a.q.username, a.q.password, now) {
        ConsumedIsNotGood(hash, db, pasts, a, v, now);
      }
    }
  }

  lemma {:induction false} ConsumedIsNotGood(hash: string -> string, db: Db, pasts: seq<Past>, a: Acceptance,
                                             v: nat, now: int)
    requires Records(hash, db, pasts) && a.until < v < |pasts| && ConsumedAt(pasts, a) && a.row.oneTime
    requires a.version == a.until && a.id in db.tables[a.until] && db.tables[a.until][a.id] == a.row
    requires a.row.plain == a.q.password && a.row.username == a.q.username
    ensures !Good(pasts[v].log, a.q.username, a.q.password, now)
  {
    var p, log := pasts[a.until], pasts[v].log;
    LogsGrow(hash, db.tables, pasts, a.until + 1, v);
    var i, j := p.origin[a.id], |p.log|;
    var ended := p.log + [Accepted(a.row.username, a.row.plain)];
    assert ended <= log;
    assert log[i] == ended[i] == p.log[i] && log[j] == ended[j];
    ConsumedIsNeverGoodAgain(log, i, j, now);
  }

  /** A refusal by a call that read its clock no earlier than the run's latest purge was right by the run's log. */
  lemma {:induction false} RefusalIsNotGood(hash: string -> string, steps: seq<Step>, db: Db, pasts: seq<Past>,
                                            r: Refusal)
    requires Injective(hash) && History(hash, steps, db, pasts) && r in db.refused
    ensures r.version < |pasts|
    ensures LastPurge(steps) <= r.q.now ==> !Good(pasts[r.version].log, r.q.username, r.q.password, r.q.now)
  {
    HistoryIsRun(hash, steps, db, pasts);
    RefusalIsJustified(hash, steps, db, r);
    VersionAnswersLikeItsLog(hash, steps, db, pasts, r.version, r.q);
  }
}
