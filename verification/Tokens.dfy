/**
  The enrollment token table. Times are Unix seconds. The table purges, fails and reuses
  row ids as the code and SQLite do; the log beside it records only what was created,
  accepted and deleted, and decides every answer.
*/
module Tokens {
  import opened Options
  import opened Seqs

  const MAX64 := 0x7FFF_FFFF_FFFF_FFFF

  /** Go's int64 wrap-around. */
  function Wrap64(x: int): int {
    (x + MAX64 + 1) % (2 * (MAX64 + 1)) - (MAX64 + 1)
  }

  /** The stored expiry: none for a non-positive ttl, else computed in int64. */
  function Deadline(at: int, ttlMinutes: int): Option<int> {
    if ttlMinutes > 0 then Some(Wrap64(at + Wrap64(ttlMinutes * 60))) else None
  }

  predicate Expired(deadline: Option<int>, now: int) {
    deadline.Some? && deadline.value <= now
  }

  /**
    A ttl means what its name says at every int64 time exactly when created-at plus
    60 * ttl fits an int64; tokens_api.go passes the caller's ttl on unbounded.
  */
  lemma {:induction false} TtlHonouredIff(at: int, ttlMinutes: int)
    requires 0 <= at <= MAX64 && -MAX64 <= ttlMinutes <= MAX64
    ensures (forall now :: 0 <= now <= MAX64 ==>
               (Expired(Deadline(at, ttlMinutes), now) <==> ttlMinutes > 0 && now >= at + 60 * ttlMinutes))
       <==> at + 60 * ttlMinutes <= MAX64
  {
    if at + 60 * ttlMinutes > MAX64 {
      assert Expired(Deadline(at, ttlMinutes), MAX64);
    } else if ttlMinutes > 0 {
      assert Deadline(at, ttlMinutes) == Some(at + 60 * ttlMinutes);
    }
  }

  /** Such a token is created already expired. */
  lemma {:induction false} HugeTtlExpiresAtOnce()
    ensures Expired(Deadline(1_700_000_000, 0x0300_0000_0000_0000), 1_700_000_000)
  {
  }

  // ---------------------------------------------------------------- the log

  datatype Event =
    | Created(username: string, plain: string, ttlMinutes: int, oneTime: bool, at: int)
    | Accepted(username: string, plain: string)
    | Deleted(username: string)

  /** Event e puts an end to the token that c created. */
  predicate Ends(c: Event, e: Event)
    requires c.Created?
  {
    || e == Deleted(c.username)
    || (c.oneTime && e == Accepted(c.username, c.plain))
  }

  /** Entry i created a token that nothing since has deleted or consumed. */
  predicate Standing(log: seq<Event>, i: nat)
    requires i < |log|
  {
    log[i].Created? && forall j :: i < j < |log| ==> !Ends(log[i], log[j])
  }

  predicate Live(log: seq<Event>, i: nat, now: int)
    requires i < |log|
  {
    Standing(log, i) && !Expired(Deadline(log[i].at, log[i].ttlMinutes), now)
  }

  predicate Active(log: seq<Event>, i: nat, username: string, now: int)
    requires i < |log|
  {
    Live(log, i, now) && log[i].username == username
  }

  /** The whole specification of a verify: the log, the credentials and the time. */
  ghost predicate Good(log: seq<Event>, username: string, plain: string, now: int) {
    exists i {:trigger Active(log, i, username, now)} ::
      0 <= i < |log| && Active(log, i, username, now) && log[i].plain == plain
  }

  predicate Issued(log: seq<Event>, plain: string) {
    exists i :: 0 <= i < |log| && log[i].Created? && log[i].plain == plain
  }

  predicate DistinctTokens(log: seq<Event>) {
    forall i, j :: 0 <= i < j < |log| && log[i].Created? && log[j].Created? ==> log[i].plain != log[j].plain
  }

  lemma {:induction false} StandingStep(log: seq<Event>, e: Event)
    ensures forall i {:trigger Standing(log, i)} {:trigger Standing(log + [e], i)} :: 0 <= i < |log| ==>
              (Standing(log + [e], i) <==> Standing(log, i) && !Ends(log[i], e))
    ensures Standing(log + [e], |log|) <==> e.Created?
  {
    forall i | 0 <= i < |log|
      ensures Standing(log + [e], i) <==> Standing(log, i) && !Ends(log[i], e)
    {
      assert (log + [e])[|log|] == e;
      assert forall j :: 0 <= j < |log| ==> (log + [e])[j] == log[j];
    }
  }

  /** A one-time token is accepted at most once: nothing is good for it after that. */
  lemma {:induction false} ConsumedIsNeverGoodAgain(log: seq<Event>, i: nat, j: nat, now: int)
    requires DistinctTokens(log) && i < j < |log| && log[i].Created? && log[i].oneTime
    requires log[j] == Accepted(log[i].username, log[i].plain)
    ensures !Good(log, log[i].username, log[i].plain, now)
  {
    assert Ends(log[i], log[j]);
    if Good(log, log[i].username, log[i].plain, now) {
      var k :| 0 <= k < |log| && Active(log, k, log[i].username, now) && log[k].plain == log[i].plain;
      assert false;
    }
  }

  // ---------------------------------------------------------------- what each event does to an answer

  /** With the four lemmas below the log's answers are fixed from the first event on. */
  lemma {:induction false} NothingIsGoodAtFirst(username: string, plain: string, now: int)
    ensures !Good([], username, plain, now)
  {
  }

  lemma {:induction false} GoodIff(log: seq<Event>, e: Event, username: string, plain: string, now: int)
    ensures Good(log + [e], username, plain, now) <==>
              || (e.Created? && Active(log + [e], |log|, username, now) && e.plain == plain)
              || exists i {:trigger Active(log, i, username, now)} ::
                   0 <= i < |log| && Active(log, i, username, now) && log[i].plain == plain && !Ends(log[i], e)
  {
    StandingStep(log, e);
    var log' := log + [e];
    assert forall i :: 0 <= i < |log| ==> log'[i] == log[i];
    forall i | 0 <= i < |log| && Standing(log, i)
      ensures Active(log', i, username, now) <==> Active(log, i, username, now) && !Ends(log[i], e)
    {
      assert Standing(log', i) <==> Standing(log, i) && !Ends(log[i], e);
    }
    if Good(log', username, plain, now) {
      var i :| 0 <= i < |log'| && Active(log', i, username, now) && log'[i].plain == plain;
      assert i < |log| ==> Standing(log', i);
    }
    if i :| 0 <= i < |log| && Active(log, i, username, now) && log[i].plain == plain && !Ends(log[i], e) {
      assert Standing(log, i) && Active(log', i, username, now);
    }
  }

  /** A new token is good for its user until it expires, and changes nothing else. */
  lemma {:induction false} GoodAfterCreation(log: seq<Event>, e: Event, username: string, plain: string, now: int)
    requires e.Created? && !Issued(log, e.plain)
    ensures Good(log + [e], username, plain, now) <==>
              if plain == e.plain then username == e.username && !Expired(Deadline(e.at, e.ttlMinutes), now)
              else Good(log, username, plain, now)
    ensures 0 <= e.at <= MAX64 && -MAX64 <= e.ttlMinutes && e.at + 60 * e.ttlMinutes <= MAX64 && 0 <= now <= MAX64 ==>
              (Good(log + [e], e.username, e.plain, now) <==> e.ttlMinutes <= 0 || now < e.at + 60 * e.ttlMinutes)
  {
    GoodIff(log, e, username, plain, now);
    GoodIff(log, e, e.username, e.plain, now);
    StandingStep(log, e);
    if 0 <= e.at <= MAX64 && -MAX64 <= e.ttlMinutes && e.at + 60 * e.ttlMinutes <= MAX64 && 0 <= now <= MAX64 {
      TtlHonouredIff(e.at, e.ttlMinutes);
    }
  }

  /** A deletion leaves the user nothing, of whatever kind, and others everything. */
  lemma {:induction false} GoodAfterDeletion(log: seq<Event>, deleted: string, username: string, plain: string,
                                             now: int)
    ensures Good(log + [Deleted(deleted)], username, plain, now) <==>
              username != deleted && Good(log, username, plain, now)
  {
    GoodIff(log, Deleted(deleted), username, plain, now);
  }

  /** An acceptance ends the very token if it was issued for one use, and nothing else. */
  lemma {:induction false} GoodAfterAcceptance(log: seq<Event>, accepted: string, token: string,
                                               username: string, plain: string, now: int)
    requires DistinctTokens(log)
    ensures Good(log + [Accepted(accepted, token)], username, plain, now) <==>
              && Good(log, username, plain, now)
              && !(username == accepted && plain == token
                   && exists i :: 0 <= i < |log| && log[i].Created? && log[i].plain == token && log[i].oneTime)
  {
    GoodIff(log, Accepted(accepted, token), username, plain, now);
    if i, j :| 0 <= i < |log| && 0 <= j < |log| && Active(log, i, username, now) && log[i].plain == plain
               && log[j].Created? && log[j].plain == token && log[j].oneTime && plain == token {
      assert i < j || j < i || i == j;
    }
  }

  // ---------------------------------------------------------------- the table

  datatype Row = Row(username: string, hash: string, plain: string, expiresAt: Option<int>, oneTime: bool,
                     createdAt: int)

  datatype TokenInfo = TokenInfo(id: int, username: string, token: string, expiresAt: Option<int>, oneTime: bool,
                                 createdAt: int)

  datatype Outcome = Ok(accepted: bool) | Err

  /** Which statements of one Verify fail; the code ignores a failed purge. */
  datatype Faults = Faults(purge: bool, begin: bool, query: bool, consume: bool, commit: bool)

  const NO_FAULTS := Faults(false, false, false, false, false)

  predicate Inserted(before: map<int, Row>, after: map<int, Row>, row: Row) {
    exists id :: id in after && id !in before && after == before[id := row]
  }

  function RowOf(hash: string -> string, c: Event): Row
    requires c.Created?
  {
    Row(c.username, hash(c.plain), c.plain, Deadline(c.at, c.ttlMinutes), c.oneTime, c.at)
  }

  ghost predicate Injective(f: string -> string) {
    forall x, y :: f(x) == f(y) ==> x == y
  }

  /** SQLite's next rowid: one more than the largest in use, so ids come back. */
  predicate NextId(ids: set<int>, id: int) {
    id !in ids && if ids == {} then id == 1 else id - 1 in ids && forall k :: k in ids ==> k < id
  }

  lemma {:induction false} NextIdExists(ids: set<int>) returns (id: int)
    ensures NextId(ids, id)
  {
    if ids == {} {
      id := 1;
    } else {
      var k := Member(ids);
      var rest := NextIdExists(ids - {k});
      id := if ids == {k} || rest <= k then k + 1 else rest;
      assert forall m :: m in ids ==> m == k || m in ids - {k};
    }
  }

  /** The rows are unconsumed tokens of the log, all live ones among them; `origin` says which. */
  ghost predicate Tracks(hash: string -> string, rows: map<int, Row>, origin: map<int, nat>, log: seq<Event>,
                         clock: int)
  {
    && DistinctTokens(log) && origin.Keys == rows.Keys
    && (forall id :: id in rows ==>
          && origin[id] < |log| && Standing(log, origin[id])
          && rows[id] == RowOf(hash, log[origin[id]]))
    && (forall id, other :: id in rows && other in rows && id != other ==> origin[id] != origin[other])
    && forall i {:trigger Live(log, i, clock)} ::
         0 <= i < |log| && Live(log, i, clock) ==> exists id :: id in rows && origin[id] == i
  }

  lemma {:induction false} TracksLater(hash: string -> string, rows: map<int, Row>, origin: map<int, nat>,
                                       log: seq<Event>, clock: int, now: int)
    requires Tracks(hash, rows, origin, log, clock) && clock <= now
    ensures Tracks(hash, rows, origin, log, now)
  {
    forall i | 0 <= i < |log| && Live(log, i, now)
      ensures exists id :: id in rows && origin[id] == i
    {
      assert Live(log, i, clock);
    }
  }

  lemma {:induction false} TracksPurged(hash: string -> string, rows: map<int, Row>, origin: map<int, nat>,
                                        log: seq<Event>, now: int, dead: set<int>)
    requires Tracks(hash, rows, origin, log, now)
    requires forall id :: id in dead ==> id in rows && Expired(rows[id].expiresAt, now)
    ensures Tracks(hash, rows - dead, origin - dead, log, now)
  {
    forall i | 0 <= i < |log| && Live(log, i, now)
      ensures exists id :: id in rows - dead && (origin - dead)[id] == i
    {
      var id :| id in rows && origin[id] == i;
      assert id in rows - dead;
    }
  }

  /** An event that ends tokens is matched by removing exactly their rows. */
  lemma {:induction false} TracksEnded(hash: string -> string, rows: map<int, Row>, origin: map<int, nat>,
                                       log: seq<Event>, now: int, e: Event, gone: set<int>)
    requires Tracks(hash, rows, origin, log, now) && !e.Created?
    requires forall id :: id in rows ==> (id in gone <==> Ends(log[origin[id]], e))
    ensures Tracks(hash, rows - gone, origin - gone, log + [e], now)
  {
    StandingStep(log, e);
    forall i | 0 <= i < |log + [e]| && Live(log + [e], i, now)
      ensures exists id :: id in rows - gone && (origin - gone)[id] == i
    {
      assert Standing(log + [e], i) && i < |log| && Live(log, i, now);
      var id :| id in rows && origin[id] == i;
      assert id in rows - gone;
    }
  }

  lemma {:induction false} TracksAdded(hash: string -> string, rows: map<int, Row>, origin: map<int, nat>,
                                       log: seq<Event>, now: int, id: int, e: Event)
    requires Tracks(hash, rows, origin, log, now) && e.Created? && !Issued(log, e.plain) && id !in rows
    ensures Tracks(hash, rows[id := RowOf(hash, e)], origin[id := |log|], log + [e], now)
  {
    StandingStep(log, e);
    var rows', origin', log' := rows[id := RowOf(hash, e)], origin[id := |log|], log + [e];
    forall i | 0 <= i < |log'| && Live(log', i, now)
      ensures exists id' :: id' in rows' && origin'[id'] == i
    {
      if i < |log| {
        assert Standing(log, i) && Live(log, i, now);
        var id' :| id' in rows && origin[id'] == i;
        assert id' in rows' && origin'[id'] == i;
      } else {
        assert id in rows' && origin'[id] == i;
      }
    }
  }

  /** Accepting a one-time token ends that token and no other. */
  lemma {:induction false} AcceptanceEnds(hash: string -> string, rows: map<int, Row>, origin: map<int, nat>,
                                          log: seq<Event>, now: int, id: int, e: Event, gone: set<int>)
    requires Tracks(hash, rows, origin, log, now) && id in rows
    requires e == Accepted(rows[id].username, rows[id].plain)
    requires gone == if rows[id].oneTime then {id} else {}
    ensures forall other :: other in rows ==> (other in gone <==> Ends(log[origin[other]], e))
  {
    forall other | other in rows && other != id ensures !Ends(log[origin[other]], e) {
      var i, j := origin[id], origin[other];
      assert i < j || j < i;
      assert log[i].plain != log[j].plain;
    }
  }

  lemma {:induction false} TracksAccepted(hash: string -> string, rows: map<int, Row>, origin: map<int, nat>,
                                          log: seq<Event>, now: int, id: int, e: Event)
    requires Tracks(hash, rows, origin, log, now) && id in rows
    requires e == Accepted(rows[id].username, rows[id].plain)
    ensures if rows[id].oneTime then Tracks(hash, rows - {id}, origin - {id}, log + [e], now)
            else Tracks(hash, rows, origin, log + [e], now)
  {
    var gone := if rows[id].oneTime then {id} else {};
    AcceptanceEnds(hash, rows, origin, log, now, id, e, gone);
    TracksEnded(hash, rows, origin, log, now, e, gone);
    assert rows - {} == rows && origin - {} == origin;
  }

  /** What the query finds is what the log calls good. */
  lemma {:induction false} MatchIsGood(hash: string -> string, rows: map<int, Row>, origin: map<int, nat>,
                                       log: seq<Event>, now: int, username: string, password: string)
    requires Injective(hash) && Tracks(hash, rows, origin, log, now)
    ensures (exists id :: id in rows && Matches(rows[id], username, hash(password), now))
       <==> Good(log, username, password, now)
    ensures forall id :: id in rows && Matches(rows[id], username, hash(password), now) ==>
              rows[id].plain == password
  {
    if Good(log, username, password, now) {
      var i :| 0 <= i < |log| && Active(log, i, username, now) && log[i].plain == password;
      assert Live(log, i, now);
      var id :| id in rows && origin[id] == i;
      assert Matches(rows[id], username, hash(password), now);
    }
    forall id | id in rows && Matches(rows[id], username, hash(password), now)
      ensures rows[id].plain == password && Good(log, username, password, now)
    {
      assert Active(log, origin[id], username, now);
    }
  }

  predicate Matches(row: Row, username: string, hash: string, now: int) {
    row.username == username && row.hash == hash && !Expired(row.expiresAt, now)
  }

  function InfoOf(id: int, row: Row): TokenInfo {
    TokenInfo(id, row.username, row.plain, row.expiresAt, row.oneTime, row.createdAt)
  }

  predicate Wanted(row: Row, username: string, now: int) {
    row.username == username && !Expired(row.expiresAt, now)
  }

  /** The listing of the wanted rows among the given ids, each once. */
  predicate Selected(rows: map<int, Row>, ids: set<int>, username: string, now: int, tokens: seq<TokenInfo>) {
    && ids <= rows.Keys
    && (forall k :: 0 <= k < |tokens| ==>
          && tokens[k].id in ids && Wanted(rows[tokens[k].id], username, now)
          && tokens[k] == InfoOf(tokens[k].id, rows[tokens[k].id]))
    && (forall id :: id in ids && Wanted(rows[id], username, now) ==> InfoOf(id, rows[id]) in tokens)
    && forall k, l :: 0 <= k < l < |tokens| ==> tokens[k].id != tokens[l].id
  }

  lemma {:induction false} SelectedStep(rows: map<int, Row>, ids: set<int>, username: string, now: int,
                                        tokens: seq<TokenInfo>, id: int)
    requires id in rows && id !in ids
    requires Selected(rows, ids, username, now,
                      if Wanted(rows[id], username, now) && tokens != [] then Init(tokens) else tokens)
    requires Wanted(rows[id], username, now) ==> tokens != [] && Last(tokens) == InfoOf(id, rows[id])
    ensures Selected(rows, ids + {id}, username, now, tokens)
  {
    if Wanted(rows[id], username, now) {
      assert Init(tokens) + [Last(tokens)] == tokens;
    }
  }

  lemma {:induction false} SelectedAreActive(hash: string -> string, rows: map<int, Row>, origin: map<int, nat>,
                                             log: seq<Event>, now: int, username: string, tokens: seq<TokenInfo>)
    requires Tracks(hash, rows, origin, log, now) && Selected(rows, rows.Keys, username, now, tokens)
    ensures ListsActive(log, username, now, tokens)
  {
    forall i: nat | i < |log| && Active(log, i, username, now)
      ensures exists k :: 0 <= k < |tokens| && Describes(tokens[k], log[i])
    {
      assert Live(log, i, now);
      var id :| id in rows && origin[id] == i;
      assert InfoOf(id, rows[id]) in tokens;
    }
    forall t | t in tokens ensures OfActive(log, username, now, t) {
      assert Active(log, origin[t.id], username, now);
    }
    forall k: nat, l: nat | k < l < |tokens| ensures tokens[k].token != tokens[l].token {
      var i, j := origin[tokens[k].id], origin[tokens[l].id];
      assert i < j || j < i;
    }
  }

  class TokenStore {
    const hash: string -> string
    var rows: map<int, Row>
    ghost var log: seq<Event>
    ghost var clock: int
    ghost var origin: map<int, nat>  // the log entry that created each row

    ghost predicate Valid()
      reads this
    {
      Injective(hash) && Tracks(hash, rows, origin, log, clock)
    }

    constructor (hash: string -> string)
      requires Injective(hash)
      ensures Valid() && log == [] && this.hash == hash
    {
      this.hash := hash;
      rows, log, clock, origin := map[], [], 0, map[];
    }

    method Create(username: string, ttlMinutes: int, oneTime: bool, random: Option<string>, now: int, insertFails: bool)
      returns (token: Option<string>)
      requires Valid() && clock <= now
      requires random.Some? ==> !Issued(log, random.value)
      modifies this
      ensures Valid() && clock == now
      ensures token == if insertFails then None else random
      ensures log == old(log) + if token.Some? then [Created(username, token.value, ttlMinutes, oneTime, now)] else []
      ensures token == None ==> rows == old(rows)
      ensures token.Some? ==>
                var expiresAt := Deadline(now, ttlMinutes);
                Inserted(old(rows), rows, Row(username, hash(token.value), token.value, expiresAt, oneTime, now))
    {
      TracksLater(hash, rows, origin, log, clock, now);
      clock := now;
      if random.None? || insertFails {
        return None;
      }
      ghost var next := NextIdExists(rows.Keys);
      var id: int :| NextId(rows.Keys, id);
      assert NextId(rows.Keys, id);
      ghost var e := Created(username, random.value, ttlMinutes, oneTime, now);
      TracksAdded(hash, rows, origin, log, now, id, e);
      rows := rows[id := Row(username, hash(random.value), random.value, Deadline(now, ttlMinutes), oneTime, now)];
      origin := origin[id := |log|];
      log := log + [e];
      return random;
    }

    /** Drops rows whose expiry has passed; the log does not notice. */
    method Purge(now: int)
      requires Valid() && clock <= now
      modifies this`rows, this`origin, this`clock
      ensures Valid() && clock == now
      ensures forall id :: id in old(rows) ==>
                if Expired(old(rows)[id].expiresAt, now) then id !in rows
                else id in rows && rows[id] == old(rows)[id]
    {
      var dead := set id | id in rows && Expired(rows[id].expiresAt, now);
      TracksLater(hash, rows, origin, log, clock, now);
      TracksPurged(hash, rows, origin, log, now, dead);
      rows, origin, clock := rows - dead, origin - dead, now;
    }

    /**
      Accepts exactly what the log says is good, whether or not any purge ever ran, and a
      failed statement leaves the token as it was.
    */
    method Verify(username: string, password: string, now: int, faults: Faults) returns (r: Outcome)
      requires Valid() && clock <= now
      modifies this
      ensures Valid() && clock == now
      ensures r.Ok? ==> (r.accepted <==> Good(old(log), username, password, now))
      ensures faults.(purge := false) == NO_FAULTS ==> r.Ok?
      ensures log == old(log) + if r == Ok(true) then [Accepted(username, password)] else []
    {
      if !faults.purge {
        Purge(now);
      }
      TracksLater(hash, rows, origin, log, clock, now);
      clock := now;
      r := Transact(username, password, now, faults);
    }

    /** The transaction: read, consume if one-time, commit; any failure rolls it back. */
    method Transact(username: string, password: string, now: int, faults: Faults) returns (r: Outcome)
      requires Valid() && clock == now
      modifies this`rows, this`origin, this`log
      ensures Valid()
      ensures r.Ok? ==> (r.accepted <==> Good(old(log), username, password, now))
      ensures faults.(purge := false) == NO_FAULTS ==> r.Ok?
      ensures log == old(log) + if r == Ok(true) then [Accepted(username, password)] else []
      ensures r != Ok(true) ==> rows == old(rows)
    {
      if faults.begin || faults.query {
        return Err;
      }
      MatchIsGood(hash, rows, origin, log, now, username, password);
      if !exists id :: id in rows && Matches(rows[id], username, hash(password), now) {
        return Ok(false);
      }
      var id :| id in rows && Matches(rows[id], username, hash(password), now);
      if (rows[id].oneTime && faults.consume) || faults.commit {
        return Err;
      }
      Accept(id);
      return Ok(true);
    }

    /** Consumes the row if its token is one-time. */
    method Accept(id: int)
      requires Valid() && id in rows
      modifies this`rows, this`origin, this`log
      ensures Valid() && log == old(log) + [Accepted(old(rows)[id].username, old(rows)[id].plain)]
      ensures rows == if old(rows)[id].oneTime then old(rows) - {id} else old(rows)
    {
      ghost var e := Accepted(rows[id].username, rows[id].plain);
      TracksAccepted(hash, rows, origin, log, clock, id, e);
      if rows[id].oneTime {
        rows, origin := rows - {id}, origin - {id};
      }
      log := log + [e];
    }

    /** Ends every token of the user, or fails; the count includes expired rows no purge has removed yet. */
    method DeleteByUsername(username: string, fails: bool) returns (count: Option<int>)
      requires Valid()
      modifies this`rows, this`origin, this`log
      ensures Valid() && (count == None <==> fails)
      ensures fails ==> log == old(log) && rows == old(rows)
      ensures !fails ==> log == old(log) + [Deleted(username)]
      ensures !fails ==> count == Some(|set id | id in old(rows) && old(rows)[id].username == username|)
      ensures !fails ==> forall id :: id in rows <==> id in old(rows) && old(rows)[id].username != username
      ensures forall id :: id in rows ==> rows[id] == old(rows)[id]
      ensures !fails ==> forall plain, now :: !Good(log, username, plain, now)
      ensures !fails ==> forall other, plain, now {:trigger Good(log, other, plain, now)} ::
                other != username ==> (Good(log, other, plain, now) <==> Good(old(log), other, plain, now))
    {
      if fails {
        return None;
      }
      var gone := set id | id in rows && rows[id].username == username;
      TracksEnded(hash, rows, origin, log, clock, Deleted(username), gone);
      rows, origin := rows - gone, origin - gone;
      log := log + [Deleted(username)];
      count := Some(|gone|);
      forall other, plain, now
        ensures Good(log, other, plain, now) <==> other != username && Good(old(log), other, plain, now)
      {
        GoodAfterDeletion(old(log), username, other, plain, now);
      }
    }

    /** The rows the statement would yield, in the database's own order. */
    method Query(username: string, now: int) returns (cursor: seq<TokenInfo>)
      ensures Selected(rows, rows.Keys, username, now, cursor)
    {
      cursor := [];
      var left := rows.Keys;
      ghost var seen: set<int> := {};
      while left != {}
        invariant seen + left == rows.Keys && seen !! left
        invariant Selected(rows, seen, username, now, cursor)
      {
        ghost var some := Member(left);
        var id: int :| id in left;
        if Wanted(rows[id], username, now) {
          cursor := cursor + [InfoOf(id, rows[id])];
        }
        SelectedStep(rows, seen, username, now, cursor, id);
        left, seen := left - {id}, seen + {id};
      }
    }

    /**
      The active tokens of the user, each once, purged or not; row ids are not determined by
      the log. A failed query or a row that does not scan is an error. A failed step is not:
      it ends the loop like the last row, and the rows so far are returned as if complete.
    */
    method GetActive(username: string, now: int, fetch: Fetch) returns (result: Option<seq<TokenInfo>>)
      requires Valid() && clock <= now
      ensures exists full :: ListsActive(log, username, now, full) && ReadAs(fetch, full, result) &&
                (result.Some? ==>
                   (ListsActive(log, username, now, result.value) <==> !(fetch.StepFailsAt? && fetch.k < |full|)))
    {
      var cursor := Query(username, now);
      CursorListsActive(hash, rows, origin, log, clock, now, username, cursor);
      result := ReadRows(cursor, fetch);
      CutListing(log, username, now, cursor, RowsRead(fetch, |cursor|));
    }
  }

  lemma {:induction false} CursorListsActive(hash: string -> string, rows: map<int, Row>, origin: map<int, nat>,
                                             log: seq<Event>, clock: int, now: int, username: string,
                                             cursor: seq<TokenInfo>)
    requires Tracks(hash, rows, origin, log, clock) && clock <= now && Selected(rows, rows.Keys, username, now, cursor)
    ensures ListsActive(log, username, now, cursor)
  {
    TracksLater(hash, rows, origin, log, clock, now);
    SelectedAreActive(hash, rows, origin, log, now, username, cursor);
  }

  /** What the code makes of the rows: an error, or those read until the last or until a step failed. */
  predicate ReadAs(fetch: Fetch, cursor: seq<TokenInfo>, result: Option<seq<TokenInfo>>) {
    && (result == None <==> fetch == QueryFails || (fetch.ScanFailsAt? && fetch.k < |cursor|))
    && (result.Some? ==> result.value == cursor[..RowsRead(fetch, |cursor|)])
  }

  /** The loop over the rows: it ends at the last row or at a step that fails, and cannot tell which. */
  method ReadRows(cursor: seq<TokenInfo>, fetch: Fetch) returns (result: Option<seq<TokenInfo>>)
    ensures ReadAs(fetch, cursor, result)
  {
    if fetch.QueryFails? {
      return None;
    }
    var tokens := [];
    for i := 0 to |cursor|
      invariant tokens == cursor[..i]
      invariant fetch.ScanFailsAt? || fetch.StepFailsAt? ==> i <= fetch.k
    {
      if fetch == StepFailsAt(i) {
        return Some(tokens);
      }
      if fetch == ScanFailsAt(i) {
        return None;
      }
      tokens := tokens + [cursor[i]];
    }
    return Some(tokens);
  }

  /** How reading the rows of a query goes: the k-th, counting from 0, may fail to scan or not be reached. */
  datatype Fetch = Complete | QueryFails | ScanFailsAt(k: nat) | StepFailsAt(k: nat)

  function RowsRead(fetch: Fetch, rows: nat): nat {
    if fetch.StepFailsAt? && fetch.k < rows then fetch.k else rows
  }

  /** A listing cut short is never a listing of the active tokens: what is missing is active too. */
  lemma {:induction false} CutListing(log: seq<Event>, username: string, now: int, full: seq<TokenInfo>, k: nat)
    requires ListsActive(log, username, now, full) && k <= |full|
    ensures ListsActive(log, username, now, full[..k]) <==> k == |full|
  {
    if k == |full| {
      assert full[..k] == full;
    } else {
      assert full[k] in full;
      var i :| 0 <= i < |log| && Active(log, i, username, now) && Describes(full[k], log[i]);
      forall m | 0 <= m < k ensures !Describes(full[..k][m], log[i]) {
        assert full[m].token != full[k].token;
      }
    }
  }

  ghost predicate OfActive(log: seq<Event>, username: string, now: int, t: TokenInfo) {
    exists i {:trigger Active(log, i, username, now)} ::
      0 <= i < |log| && Active(log, i, username, now) && Describes(t, log[i])
  }

  /** The tokens are the active ones of the user, each once. */
  ghost predicate ListsActive(log: seq<Event>, username: string, now: int, tokens: seq<TokenInfo>) {
    && (forall i {:trigger Active(log, i, username, now)} :: 0 <= i < |log| && Active(log, i, username, now) ==>
          exists k :: 0 <= k < |tokens| && Describes(tokens[k], log[i]))
    && (forall t :: t in tokens ==> OfActive(log, username, now, t))
    && forall k, l :: 0 <= k < l < |tokens| ==> tokens[k].token != tokens[l].token
  }

  /** The listed token was created as shown. */
  predicate ShowsCreated(log: seq<Event>, t: TokenInfo) {
    exists i :: 0 <= i < |log| && log[i].Created? && log[i].username == t.username && log[i].plain == t.token
                && log[i].oneTime == t.oneTime && log[i].at == t.createdAt
  }

  /** What such a listing shows is what a verify would accept, under the same user. */
  lemma {:induction false} ListedIffGood(log: seq<Event>, username: string, now: int, tokens: seq<TokenInfo>,
                                         plain: string)
    requires ListsActive(log, username, now, tokens)
    ensures (exists k :: 0 <= k < |tokens| && tokens[k].token == plain) <==> Good(log, username, plain, now)
    ensures forall t :: t in tokens ==> t.username == username && ShowsCreated(log, t)
  {
    forall t | t in tokens
      ensures t.username == username && Good(log, username, t.token, now)
      ensures ShowsCreated(log, t)
    {
      assert OfActive(log, username, now, t);
      var i :| 0 <= i < |log| && Active(log, i, username, now) && Describes(t, log[i]);
      assert log[i].plain == t.token;
    }
    if k :| 0 <= k < |tokens| && tokens[k].token == plain {
      assert tokens[k] in tokens;
    }
    if Good(log, username, plain, now) {
      var i :| 0 <= i < |log| && Active(log, i, username, now) && log[i].plain == plain;
      var k :| 0 <= k < |tokens| && Describes(tokens[k], log[i]);
    }
  }

  /** Everything a listing shows of a token but its row id. */
  predicate Describes(t: TokenInfo, c: Event)
    requires c.Created?
  {
    t.(id := 0) == TokenInfo(0, c.username, c.plain, Deadline(c.at, c.ttlMinutes), c.oneTime, c.at)
  }
}
