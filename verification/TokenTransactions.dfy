/**
  Verify as the database sees it: calls interleave statement by statement, each reading
  its own snapshot. The one thing assumed of SQLite is that a transaction which wrote
  fails to commit when another commit came after its snapshot. Row ids come back after a
  deletion, so a stale delete by id could otherwise hit a different token.
*/
module TokenTransactions {
  import opened Options
  import opened Seqs
  import opened Tokens

  type Table = map<int, Row>

  /** The committed versions of the table, the last one current. */
  type Versions = ts: seq<Table> | ts != [] witness [map[]]

  /** What a call asks, and the version committed when it began. */
  datatype Query = Query(username: string, password: string, now: int, since: nat)

  datatype Call =
    | Begun(q: Query)
    | Read(q: Query, version: nat, id: int, row: Row)
    | Consuming(q: Query, version: nat, id: int, row: Row)

  /** A successful call: the row it read, its snapshot, and the version it committed on. */
  datatype Acceptance = Acceptance(q: Query, version: nat, id: int, row: Row, until: nat)

  /** A call that found no row, and the version it looked at. */
  datatype Refusal = Refusal(q: Query, version: nat)

  /** `issued`, `accepted`, `refused` and the versions before the last only record what happened. */
  datatype Db = Db(tables: Versions, calls: map<nat, Call>, issued: map<string, Row>, accepted: seq<Acceptance>,
                   refused: seq<Refusal>)

  const EMPTY := Db([map[]], map[], map[], [], [])

  datatype Step =
    | Create(id: int, token: Event)
    | Purge(now: int)
    | DeleteByUsername(username: string)
    | Begin(call: nat, username: string, password: string, now: int)
    | Select(call: nat, id: int)
    | Refuse(call: nat)
    | Consume(call: nat)
    | Commit(call: nat)
    | Rollback(call: nat)

  predicate MatchesQuery(hash: string -> string, row: Row, q: Query) {
    Matches(row, q.username, hash(q.password), q.now)
  }

  predicate Answers(hash: string -> string, rows: Table, q: Query) {
    exists id :: id in rows && MatchesQuery(hash, rows[id], q)
  }

  predicate Enabled(hash: string -> string, db: Db, step: Step) {
    var rows := Last(db.tables);
    match step
    case Create(id, token) => token.Created? && NextId(rows.Keys, id) && token.plain !in db.issued
    case Purge(_) => true
    case DeleteByUsername(_) => true
    case Begin(call, _, _, _) => call !in db.calls
    case Select(call, id) =>
      && call in db.calls && db.calls[call].Begun?
      && id in rows && MatchesQuery(hash, rows[id], db.calls[call].q)
    case Refuse(call) => call in db.calls && db.calls[call].Begun? && !Answers(hash, rows, db.calls[call].q)
    case Consume(call) => call in db.calls && db.calls[call].Read? && db.calls[call].row.oneTime
    case Commit(call) =>
      && call in db.calls
      && ((db.calls[call].Read? && !db.calls[call].row.oneTime) || db.calls[call].Consuming?)
    case Rollback(call) => call in db.calls
  }

  /** A committed write is a new version exactly when it changes the rows. */
  function Write(tables: Versions, rows: Table): Versions {
    if rows == Last(tables) then tables else tables + [rows]
  }

  function Unexpired(rows: Table, now: int): Table {
    map id | id in rows && !Expired(rows[id].expiresAt, now) :: rows[id]
  }

  function OfOthers(rows: Table, username: string): Table {
    map id | id in rows && rows[id].username != username :: rows[id]
  }

  function Next(hash: string -> string, db: Db, step: Step): Db
    requires Enabled(hash, db, step)
  {
    var rows := Last(db.tables);
    match step
    case Create(id, token) =>
      var row := RowOf(hash, token);
      db.(tables := Write(db.tables, rows[id := row]), issued := db.issued[row.plain := row])
    case Purge(now) => db.(tables := Write(db.tables, Unexpired(rows, now)))
    case DeleteByUsername(username) => db.(tables := Write(db.tables, OfOthers(rows, username)))
    case Begin(call, username, password, now) =>
      db.(calls := db.calls[call := Begun(Query(username, password, now, |db.tables| - 1))])
    case Select(call, id) =>
      db.(calls := db.calls[call := Read(db.calls[call].q, |db.tables| - 1, id, rows[id])])
    case Refuse(call) =>
      db.(calls := db.calls - {call}, refused := db.refused + [Refusal(db.calls[call].q, |db.tables| - 1)])
    case Consume(call) =>
      var c := db.calls[call];
      db.(calls := db.calls[call := Consuming(c.q, c.version, c.id, c.row)])
    case Commit(call) =>
      var c, done := db.calls[call], db.(calls := db.calls - {call});
      var accepted := db.accepted + [Acceptance(c.q, c.version, c.id, c.row, |db.tables| - 1)];
      if c.Read? then done.(accepted := accepted)
      else if c.version != |db.tables| - 1 then done  // stale: the commit fails and rolls back
      else done.(tables := Write(db.tables, rows - {c.id}), accepted := accepted)
    case Rollback(call) => db.(calls := db.calls - {call})
  }

  ghost predicate Reachable(hash: string -> string, steps: seq<Step>, db: Db) {
    if steps == [] then db == EMPTY
    else exists before ::
      && Reachable(hash, Init(steps), before)
      && Enabled(hash, before, Last(steps)) && db == Next(hash, before, Last(steps))
  }

  // ---------------------------------------------------------------- what each statement does

  /** A creation stores the token as given; a deletion leaves no row of the user and every other as it was. */
  lemma {:induction false} StatementsChangeRows(hash: string -> string, db: Db, step: Step)
    requires Enabled(hash, db, step)
    ensures var rows, rows' := Last(db.tables), Last(Next(hash, db, step).tables);
            match step
            case Create(id, Created(username, plain, ttlMinutes, oneTime, at)) =>
              && id !in rows && rows' == rows[id := rows'[id]]
              && rows'[id] == Row(username, hash(plain), plain, Deadline(at, ttlMinutes), oneTime, at)
            case DeleteByUsername(username) =>
              && (forall id :: id in rows' ==> id in rows && rows'[id] == rows[id] && rows[id].username != username)
              && forall id :: id in rows && rows[id].username != username ==> id in rows'
            case Purge(now) =>
              && (forall id :: id in rows' ==> id in rows && rows'[id] == rows[id])
              && forall id :: id in rows ==>
                   (id in rows' <==> rows[id].expiresAt == None || now < rows[id].expiresAt.value)
            case _ => step.Commit? || rows' == rows
  {
    if step.Create? {
      assert step.id !in Last(db.tables).Keys;
    }
  }

  /** A call begins on the current version with what it was given, and reads a row of that version. */
  lemma {:induction false} CallsReadTheCurrent(hash: string -> string, db: Db, step: Step)
    requires Enabled(hash, db, step)
    ensures match step
            case Begin(call, username, password, now) =>
              Next(hash, db, step).calls == db.calls[call := Begun(Query(username, password, now, |db.tables| - 1))]
            case Select(call, id) =>
              && id in Last(db.tables) && Last(db.tables)[id].hash == hash(db.calls[call].q.password)
              && Next(hash, db, step).calls
                   == db.calls[call := Read(db.calls[call].q, |db.tables| - 1, id, Last(db.tables)[id])]
            case _ => true
  {
  }

  /** A commit that had nothing to consume always succeeds, and touches no row. */
  lemma {:induction false} ReuseIsAccepted(hash: string -> string, db: Db, call: nat)
    requires call in db.calls && db.calls[call].Read? && !db.calls[call].row.oneTime
    ensures Enabled(hash, db, Commit(call))
    ensures var c, db' := db.calls[call], Next(hash, db, Commit(call));
            && db'.accepted == db.accepted + [Acceptance(c.q, c.version, c.id, c.row, |db.tables| - 1)]
            && db'.tables == db.tables
  {
  }

  // ---------------------------------------------------------------- invariant

  function Plains(rows: Table): set<string> {
    set id | id in rows :: rows[id].plain
  }

  predicate DistinctPlains(rows: Table) {
    forall id, other :: id in rows && other in rows && id != other ==> rows[id].plain != rows[other].plain
  }

  /** Every row is the one its plaintext was issued with, under that plaintext's hash. */
  predicate Genuine(hash: string -> string, issued: map<string, Row>, rows: Table) {
    forall id :: id in rows ==>
      var row := rows[id];
      row.plain in issued && issued[row.plain] == row && row.hash == hash(row.plain)
  }

  /** A token that has left the table does not come back. */
  predicate GoneStaysGone(tables: Versions) {
    forall u, v, w {:trigger Plains(tables[u]), Plains(tables[v]), Plains(tables[w])} ::
      0 <= u <= v <= w < |tables| ==> Plains(tables[u]) * Plains(tables[w]) <= Plains(tables[v])
  }

  predicate TablesSound(hash: string -> string, tables: Versions, issued: map<string, Row>) {
    && DistinctPlains(Last(tables)) && GoneStaysGone(tables)
    && forall v :: 0 <= v < |tables| ==> Genuine(hash, issued, tables[v])
  }

  /** What a call has read was in its snapshot and matched, and the snapshot is no older than the call. */
  predicate CallTrue(hash: string -> string, tables: Versions, c: Call) {
    && c.q.since < |tables|
    && (!c.Begun? ==> && c.q.since <= c.version < |tables| && c.id in tables[c.version]
                      && tables[c.version][c.id] == c.row && MatchesQuery(hash, c.row, c.q))
    && (c.Consuming? ==> c.row.oneTime)
  }

  predicate CallsTrue(hash: string -> string, tables: Versions, calls: map<nat, Call>) {
    forall call :: call in calls ==> CallTrue(hash, tables, calls[call])
  }

  /** A committed version within the call's lifetime held the accepted row, and the row matched. */
  predicate Justified(hash: string -> string, tables: Versions, a: Acceptance) {
    && a.q.since <= a.version <= a.until < |tables|
    && a.id in tables[a.version] && tables[a.version][a.id] == a.row && MatchesQuery(hash, a.row, a.q)
    && (a.row.oneTime ==> ConsumedBy(tables, a))
  }

  /** A one-time token is in the very version committed on, and the next one is without it. */
  predicate ConsumedBy(tables: Versions, a: Acceptance)
    requires a.until < |tables|
  {
    && a.version == a.until && a.until + 1 < |tables|
    && tables[a.until + 1] == tables[a.until] - {a.id} && a.row.plain !in Plains(tables[a.until + 1])
  }

  predicate InOrder(accepted: seq<Acceptance>) {
    forall i, j :: 0 <= i < j < |accepted| ==>
      accepted[i].until <= accepted[j].until && (accepted[i].row.oneTime ==> accepted[i].until < accepted[j].until)
  }

  predicate AcceptancesTrue(hash: string -> string, tables: Versions, accepted: seq<Acceptance>) {
    (forall i :: 0 <= i < |accepted| ==> Justified(hash, tables, accepted[i])) && InOrder(accepted)
  }

  /** A committed version within the call's lifetime held no row that matched. */
  predicate RefusalTrue(hash: string -> string, tables: Versions, r: Refusal) {
    r.q.since <= r.version < |tables| && !Answers(hash, tables[r.version], r.q)
  }

  predicate RefusalsTrue(hash: string -> string, tables: Versions, refused: seq<Refusal>) {
    forall i :: 0 <= i < |refused| ==> RefusalTrue(hash, tables, refused[i])
  }

  /** What is known of calls, acceptances and refusals. */
  predicate RecordTrue(hash: string -> string, tables: Versions, calls: map<nat, Call>, accepted: seq<Acceptance>,
                       refused: seq<Refusal>)
  {
    CallsTrue(hash, tables, calls) && AcceptancesTrue(hash, tables, accepted) && RefusalsTrue(hash, tables, refused)
  }

  predicate Inv(hash: string -> string, db: Db) {
    TablesSound(hash, db.tables, db.issued) && RecordTrue(hash, db.tables, db.calls, db.accepted, db.refused)
  }

  // ---------------------------------------------------------------- writes

  lemma {:induction false} GoneStep(tables: Versions, rows: Table)
    requires GoneStaysGone(tables)
    requires forall v :: 0 <= v < |tables| ==> Plains(tables[v]) * Plains(rows) <= Plains(Last(tables))
    ensures GoneStaysGone(tables + [rows])
  {
    var tables' := tables + [rows];
    forall u, v, w | 0 <= u <= v <= w < |tables'|
      ensures Plains(tables'[u]) * Plains(tables'[w]) <= Plains(tables'[v])
    {
      if v < |tables| <= w {
        assert Plains(tables[u]) * Plains(Last(tables)) <= Plains(tables[v]);
      }
    }
  }

  lemma {:induction false} ShrinkingIsSound(hash: string -> string, tables: Versions, issued: map<string, Row>,
                                            rows: Table)
    requires TablesSound(hash, tables, issued)
    requires rows.Keys <= Last(tables).Keys && forall id :: id in rows ==> rows[id] == Last(tables)[id]
    ensures TablesSound(hash, Write(tables, rows), issued)
  {
    assert Plains(rows) <= Plains(Last(tables));
    GoneStep(tables, rows);
    assert Genuine(hash, issued, Last(tables));
  }

  lemma {:induction false} CreatingIsSound(hash: string -> string, tables: Versions, issued: map<string, Row>,
                                           id: int, row: Row)
    requires TablesSound(hash, tables, issued) && id !in Last(tables)
    requires row.plain !in issued && row.hash == hash(row.plain)
    ensures TablesSound(hash, Write(tables, Last(tables)[id := row]), issued[row.plain := row])
  {
    var rows := Last(tables)[id := row];
    forall v | 0 <= v < |tables|
      ensures row.plain !in Plains(tables[v]) && Genuine(hash, issued[row.plain := row], tables[v])
    {
      GenuineGrows(hash, issued, tables[v], row);
    }
    CreatingKeepsGone(tables, id, row);
    assert DistinctPlains(rows) && Genuine(hash, issued[row.plain := row], rows);
    assert id in rows && id !in Last(tables);
  }

  lemma {:induction false} CreatingKeepsGone(tables: Versions, id: int, row: Row)
    requires DistinctPlains(Last(tables)) && GoneStaysGone(tables) && id !in Last(tables)
    requires forall v :: 0 <= v < |tables| ==> row.plain !in Plains(tables[v])
    ensures DistinctPlains(Last(tables)[id := row]) && GoneStaysGone(tables + [Last(tables)[id := row]])
  {
    PlainsAdded(Last(tables), id, row);
    GoneStep(tables, Last(tables)[id := row]);
  }

  lemma {:induction false} GenuineGrows(hash: string -> string, issued: map<string, Row>, rows: Table, row: Row)
    requires Genuine(hash, issued, rows) && row.plain !in issued
    ensures Genuine(hash, issued[row.plain := row], rows) && row.plain !in Plains(rows)
  {
  }

  lemma {:induction false} PlainsAdded(rows: Table, id: int, row: Row)
    requires DistinctPlains(rows) && id !in rows && row.plain !in Plains(rows)
    ensures DistinctPlains(rows[id := row]) && Plains(rows[id := row]) == Plains(rows) + {row.plain}
  {
    var after := rows[id := row];
    forall k | k in rows ensures rows[k].plain in Plains(after) && rows[k].plain in Plains(rows) {
      assert after[k] == rows[k];
    }
    assert after[id].plain in Plains(after);
  }

  lemma {:induction false} WritingKeepsJustified(hash: string -> string, tables: Versions, rows: Table, a: Acceptance)
    requires Justified(hash, tables, a)
    ensures Justified(hash, Write(tables, rows), a)
  {
  }

  /** A new version leaves what is known of calls, acceptances and refusals true. */
  lemma {:induction false} WritingKeepsRecord(hash: string -> string, tables: Versions, rows: Table,
                                              calls: map<nat, Call>, accepted: seq<Acceptance>, refused: seq<Refusal>)
    requires RecordTrue(hash, tables, calls, accepted, refused)
    ensures RecordTrue(hash, Write(tables, rows), calls, accepted, refused)
  {
    var tables' := Write(tables, rows);
    forall i | 0 <= i < |accepted| ensures Justified(hash, tables', accepted[i]) {
      WritingKeepsJustified(hash, tables, rows, accepted[i]);
    }
    forall call | call in calls ensures CallTrue(hash, tables', calls[call]) {
      assert CallTrue(hash, tables, calls[call]);
    }
    forall i | 0 <= i < |refused| ensures RefusalTrue(hash, tables', refused[i]) {
      assert RefusalTrue(hash, tables, refused[i]);
    }
  }

  // ---------------------------------------------------------------- steps

  lemma {:induction false} AcceptanceAdded(hash: string -> string, tables: Versions, accepted: seq<Acceptance>,
                                           a: Acceptance)
    requires AcceptancesTrue(hash, tables, accepted) && Justified(hash, tables, a) && InOrder(accepted + [a])
    ensures AcceptancesTrue(hash, tables, accepted + [a])
  {
  }

  lemma {:induction false} NowIsLast(hash: string -> string, tables: Versions, accepted: seq<Acceptance>, a: Acceptance)
    requires AcceptancesTrue(hash, tables, accepted) && a.until == |tables| - 1
    ensures InOrder(accepted + [a])
  {
    forall i | 0 <= i < |accepted|
      ensures accepted[i].until <= a.until && (accepted[i].row.oneTime ==> accepted[i].until < a.until)
    {
      assert Justified(hash, tables, accepted[i]);
    }
  }

  lemma {:induction false} ConsumingIsJustified(hash: string -> string, tables: Versions, rows: Table, a: Acceptance)
    requires DistinctPlains(Last(tables)) && a.q.since <= a.version == a.until == |tables| - 1
    requires a.id in Last(tables) && Last(tables)[a.id] == a.row && MatchesQuery(hash, a.row, a.q)
    requires rows == Last(tables) - {a.id}
    ensures Write(tables, rows) == tables + [rows] && Justified(hash, tables + [rows], a)
  {
    assert a.id in Last(tables) && a.id !in rows;
    forall k | k in rows ensures rows[k].plain != a.row.plain {
      assert Last(tables)[k] == rows[k];
    }
  }

  lemma {:induction false} CommitKeepsInv(hash: string -> string, db: Db, step: Step)
    requires Inv(hash, db) && step.Commit? && Enabled(hash, db, step)
    ensures Inv(hash, Next(hash, db, step))
  {
    var c, tables := db.calls[step.call], db.tables;
    var a := Acceptance(c.q, c.version, c.id, c.row, |tables| - 1);
    assert CallTrue(hash, tables, c);
    NowIsLast(hash, tables, db.accepted, a);
    if c.Read? {
      AcceptanceAdded(hash, tables, db.accepted, a);
    } else if c.version == |tables| - 1 {
      var rows := Last(tables) - {c.id};
      ShrinkingIsSound(hash, tables, db.issued, rows);
      WritingKeepsRecord(hash, tables, rows, db.calls - {step.call}, db.accepted, db.refused);
      ConsumingIsJustified(hash, tables, rows, a);
      AcceptanceAdded(hash, tables + [rows], db.accepted, a);
    }
  }

  lemma {:induction false} WriteKeepsInv(hash: string -> string, db: Db, step: Step)
    requires Inv(hash, db) && (step.Create? || step.Purge? || step.DeleteByUsername?) && Enabled(hash, db, step)
    ensures Inv(hash, Next(hash, db, step))
  {
    var tables, rows := db.tables, Last(db.tables);
    match step
    case Create(id, token) =>
      var row := RowOf(hash, token);
      assert id !in rows.Keys;
      CreatingIsSound(hash, tables, db.issued, id, row);
      WritingKeepsRecord(hash, tables, rows[id := row], db.calls, db.accepted, db.refused);
    case Purge(now) =>
      ShrinkingIsSound(hash, tables, db.issued, Unexpired(rows, now));
      WritingKeepsRecord(hash, tables, Unexpired(rows, now), db.calls, db.accepted, db.refused);
    case DeleteByUsername(username) =>
      ShrinkingIsSound(hash, tables, db.issued, OfOthers(rows, username));
      WritingKeepsRecord(hash, tables, OfOthers(rows, username), db.calls, db.accepted, db.refused);
  }

  lemma {:induction false} StepKeepsInv(hash: string -> string, db: Db, step: Step)
    requires Inv(hash, db) && Enabled(hash, db, step)
    ensures Inv(hash, Next(hash, db, step))
  {
    match step
    case Create(_, _) => WriteKeepsInv(hash, db, step);
    case Purge(_) => WriteKeepsInv(hash, db, step);
    case DeleteByUsername(_) => WriteKeepsInv(hash, db, step);
    case Commit(_) => CommitKeepsInv(hash, db, step);
    case Begin(_, _, _, _) =>
    case Select(call, _) => assert CallTrue(hash, db.tables, db.calls[call]);
    case Consume(call) => assert CallTrue(hash, db.tables, db.calls[call]);
    case Refuse(call) => assert CallTrue(hash, db.tables, db.calls[call]);
    case Rollback(_) =>
  }

  lemma {:induction false} ReachableHasInv(hash: string -> string, steps: seq<Step>, db: Db)
    requires Reachable(hash, steps, db)
    ensures Inv(hash, db)
  {
    if steps != [] {
      var before :| Reachable(hash, Init(steps), before)
        && Enabled(hash, before, Last(steps)) && db == Next(hash, before, Last(steps));
      ReachableHasInv(hash, Init(steps), before);
      StepKeepsInv(hash, before, Last(steps));
    }
  }

  // ---------------------------------------------------------------- over whole runs

  /**
    Every acceptance was right at some committed version between the call's begin and its
    commit: the token presented, for the user named, unexpired, and there.
  */
  lemma {:induction false} AcceptanceIsJustified(hash: string -> string, steps: seq<Step>, db: Db, a: Acceptance)
    requires Reachable(hash, steps, db) && a in db.accepted
    ensures Justified(hash, db.tables, a)
    ensures Injective(hash) ==> a.row.plain == a.q.password && a.row.username == a.q.username
  {
    ReachableHasInv(hash, steps, db);
    assert Justified(hash, db.tables, a);
    assert Genuine(hash, db.issued, db.tables[a.version]);
  }

  /** Every refusal was right at some committed version within the call. */
  lemma {:induction false} RefusalIsJustified(hash: string -> string, steps: seq<Step>, db: Db, r: Refusal)
    requires Reachable(hash, steps, db) && r in db.refused
    ensures RefusalTrue(hash, db.tables, r)
  {
    ReachableHasInv(hash, steps, db);
  }

  /** So a call is not refused if every version since it began holds a token that matches. */
  lemma {:induction false} LiveThroughoutIsNotRefused(hash: string -> string, steps: seq<Step>, db: Db, q: Query)
    requires Reachable(hash, steps, db)
    requires forall v :: q.since <= v < |db.tables| ==> Answers(hash, db.tables[v], q)
    ensures forall r :: r in db.refused ==> r.q != q
  {
    forall r | r in db.refused ensures r.q != q {
      RefusalIsJustified(hash, steps, db, r);
    }
  }

  /** Whatever interleaves, a one-time token that was accepted is accepted by no other call. */
  lemma {:induction false} OneTimeAcceptedAtMostOnce(hash: string -> string, steps: seq<Step>, db: Db, i: nat, j: nat)
    requires Reachable(hash, steps, db) && i < |db.accepted| && j < |db.accepted| && i != j
    requires db.accepted[i].row.oneTime
    ensures db.accepted[i].row.plain != db.accepted[j].row.plain
  {
    ReachableHasInv(hash, steps, db);
    var a, b := db.accepted[i], db.accepted[j];
    assert Justified(hash, db.tables, a) && Justified(hash, db.tables, b);
    assert Genuine(hash, db.issued, db.tables[a.version]) && Genuine(hash, db.issued, db.tables[b.version]);
    if a.row.plain == b.row.plain {
      assert b.row == db.issued[b.row.plain] == a.row;
      if i < j {
        ConsumedStaysGone(db.tables, a, b);
      } else {
        ConsumedStaysGone(db.tables, b, a);
      }
    }
  }

  lemma {:induction false} ConsumedStaysGone(tables: Versions, a: Acceptance, b: Acceptance)
    requires GoneStaysGone(tables) && a.until < b.until < |tables| && ConsumedBy(tables, a)
    requires a.id in tables[a.until] && tables[a.until][a.id] == a.row
    requires b.id in tables[b.until] && tables[b.until][b.id] == b.row
    ensures a.row.plain != b.row.plain
  {
    assert a.row.plain in Plains(tables[a.until]) && b.row.plain in Plains(tables[b.until]);
    assert Plains(tables[a.until]) * Plains(tables[b.until]) <= Plains(tables[a.until + 1]);
  }

  /** A token that was deleted, purged or consumed before a call began is not accepted by it. */
  lemma {:induction false} GoneBeforeBeginIsRefused(hash: string -> string, steps: seq<Step>, db: Db, a: Acceptance,
                                                    u: nat, v: nat)
    requires Reachable(hash, steps, db) && a in db.accepted
    requires u <= v <= a.q.since && v < |db.tables|
    requires a.row.plain in Plains(db.tables[u])
    ensures a.row.plain in Plains(db.tables[v])
  {
    ReachableHasInv(hash, steps, db);
    assert Justified(hash, db.tables, a);
    assert a.row.plain in Plains(db.tables[a.version]);
    assert Plains(db.tables[u]) * Plains(db.tables[a.version]) <= Plains(db.tables[v]);
  }

  /**
    Once a version holds no row of a user, as the one right after a deletion, no call that
    begins on it or later accepts any of the user's tokens from before.
  */
  lemma {:induction false} ClearedUserIsRefused(hash: string -> string, steps: seq<Step>, db: Db, a: Acceptance,
                                                u: nat, v: nat)
    requires Reachable(hash, steps, db) && a in db.accepted && u <= v <= a.q.since && v < |db.tables|
    requires forall id :: id in db.tables[v] ==> db.tables[v][id].username != a.q.username
    ensures forall id :: id in db.tables[u] ==> db.tables[u][id].plain != a.row.plain
  {
    ReachableHasInv(hash, steps, db);
    assert Justified(hash, db.tables, a);
    assert Genuine(hash, db.issued, db.tables[a.version]) && Genuine(hash, db.issued, db.tables[v]);
    forall id | id in db.tables[v] ensures db.tables[v][id].plain != a.row.plain {
      assert db.tables[v][id] == db.issued[db.tables[v][id].plain];
    }
    if a.row.plain in Plains(db.tables[u]) {
      GoneBeforeBeginIsRefused(hash, steps, db, a, u, v);
    }
    forall id | id in db.tables[u] ensures db.tables[u][id].plain in Plains(db.tables[u]) {
    }
  }

  /** A consuming commit succeeds exactly on its own snapshot, and removes the row it verified and only that row. */
  lemma {:induction false} CommitRemovesWhatItVerified(hash: string -> string, steps: seq<Step>, db: Db, call: nat)
    requires Reachable(hash, steps, db) && call in db.calls && db.calls[call].Consuming?
    ensures Enabled(hash, db, Commit(call))
    ensures var c, db', rows := db.calls[call], Next(hash, db, Commit(call)), Last(db.tables);
            if c.version == |db.tables| - 1 then
              && c.id in rows && rows[c.id] == c.row && Last(db'.tables) == rows - {c.id}
              && |db'.accepted| == |db.accepted| + 1
            else db'.tables == db.tables && db'.accepted == db.accepted
  {
    ReachableHasInv(hash, steps, db);
    if db.calls[call].version == |db.tables| - 1 {
      CurrentSnapshot(hash, db, call);
    }
  }

  lemma {:induction false} CurrentSnapshot(hash: string -> string, db: Db, call: nat)
    requires CallsTrue(hash, db.tables, db.calls) && call in db.calls && db.calls[call].Consuming?
    requires db.calls[call].version == |db.tables| - 1
    ensures var c, rows := db.calls[call], Last(db.tables);
            && c.id in rows && rows[c.id] == c.row
            && Last(Next(hash, db, Commit(call)).tables) == rows - {c.id}
  {
    assert CallTrue(hash, db.tables, db.calls[call]);
  }

  /** Without the stale check a reused id would let one call delete another token: such states are reached. */
  lemma {:induction false} StaleCallsMeetReusedIds(hash: string -> string) returns (steps: seq<Step>, db: Db)
    ensures Reachable(hash, steps, db) && 0 in db.calls && db.calls[0].Consuming?
    ensures var c, rows := db.calls[0], Last(db.tables); c.id in rows && rows[c.id].plain != c.row.plain
  {
    steps, db := HeldReached(hash, Created("user", "a", 0, true, 0));
    var held := db.tables[1];
    assert OfOthers(held, "user") == map[];
    steps, db := StepReaches(hash, steps, db, DeleteByUsername("user"));
    steps, db := StepReaches(hash, steps, db, Create(1, Created("user", "b", 0, true, 0)));
  }

  lemma {:induction false} HeldReached(hash: string -> string, token: Event) returns (steps: seq<Step>, db: Db)
    requires token.Created? && token.oneTime && token.ttlMinutes <= 0
    ensures Reachable(hash, steps, db)
    ensures var a, q := RowOf(hash, token), Query(token.username, token.plain, 0, 1);
            db == Db([map[], map[1 := a]], map[0 := Consuming(q, 1, 1, a)], map[a.plain := a], [], [])
  {
    var a := RowOf(hash, token);
    steps, db := [], EMPTY;
    steps, db := StepReaches(hash, steps, db, Create(1, token));
    assert db == Db([map[], map[1 := a]], map[], map[a.plain := a], [], []);
    steps, db := SelectReached(hash, steps, db, a);
    steps, db := StepReaches(hash, steps, db, Consume(0));
  }

  lemma {:induction false} SelectReached(hash: string -> string, before: seq<Step>, was: Db, a: Row)
    returns (steps: seq<Step>, db: Db)
    requires Reachable(hash, before, was) && was == Db([map[], map[1 := a]], map[], map[a.plain := a], [], [])
    requires a.expiresAt == None && a.hash == hash(a.plain)
    ensures Reachable(hash, steps, db)
    ensures db == was.(calls := map[0 := Read(Query(a.username, a.plain, 0, 1), 1, 1, a)])
  {
    steps, db := StepReaches(hash, before, was, Begin(0, a.username, a.plain, 0));
    steps, db := StepReaches(hash, steps, db, Select(0, 1));
  }

  lemma {:induction false} StepReaches(hash: string -> string, steps: seq<Step>, db: Db, step: Step)
    returns (steps': seq<Step>, db': Db)
    requires Reachable(hash, steps, db) && Enabled(hash, db, step)
    ensures db' == Next(hash, db, step) && Reachable(hash, steps', db')
  {
    steps', db' := steps + [step], Next(hash, db, step);
    assert Init(steps') == steps;
  }
}
