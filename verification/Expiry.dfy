/**
  The TTL job under injected failures: who is deactivated, whose certificates are revoked,
  and who may be marked so that no later tick looks at them again.
*/
module Expiry {
  import opened Options
  import opened Attributes
  import opened Identity

  /** The sweep of on-disk certificates, as revoke_certs_on_disk_for_user ends. */
  datatype Sweep = Swept | SweepFailed | SweepRaised

  /** A certadmin row: already revoked or not, its PEM if any, and whether CRL revocation succeeds. */
  datatype Cert = Cert(revoked: bool, pem: string, crlAccepts: bool)

  /** What the certificate query does: answer with all it holds, meet an HTTP error, or raise. */
  datatype Reply = Answered | HttpFailed | QueryRaised

  /**
    Everything outside the program that one user's turn meets. `swept` are the PEMs the sweep
    puts on the CRL, however it ends; `held` are the certificates the server really has.
  */
  datatype World = World(deactivate: Write, sweep: Sweep, swept: set<string>, held: seq<Cert>, reply: Reply,
                         mark: Requests)

  /** What the client sees of the held certificates: an HTTP error looks like having none. */
  function Listed(w: World): seq<Cert> {
    if w.reply == Answered then w.held else []
  }

  predicate Revocable(c: Cert) {
    c.revoked || (c.pem != "" && c.crlAccepts)
  }

  /** None is an exception; otherwise whether every listed certificate was dealt with. */
  function Revocation(w: World): Option<bool> {
    if w.sweep == SweepRaised || w.reply == QueryRaised then None
    else Some(w.sweep == Swept && AllRevocable(Listed(w)))
  }

  predicate AllRevocable(certs: seq<Cert>) {
    forall c :: c in certs ==> Revocable(c)
  }

  /** Success takes a sweep that worked, a query that did not raise, and every certificate it listed dealt with. */
  lemma {:induction false} RevocationIff(w: World)
    ensures Revocation(w) == Some(true) <==> RevokesAll(w)
    ensures Revocation(w) == None <==> w.sweep == SweepRaised || w.reply == QueryRaised
  {
  }

  predicate RevokesAll(w: World) {
    && w.sweep == Swept && w.reply != QueryRaised
    && (w.reply == Answered ==> forall c :: c in w.held ==> c.revoked || (c.pem != "" && c.crlAccepts))
  }

  /** What a revocation adds to the CRL, certificate by certificate. */
  lemma {:induction false} CrlAfterIff(crl: set<string>, w: World, pem: string)
    ensures pem in CrlAfter(crl, w) <==>
              || pem in crl || pem in w.swept
              || (w.sweep != SweepRaised && w.reply == Answered && Cert(false, pem, true) in w.held && pem != "")
  {
    if Cert(false, pem, true) in w.held && pem != "" && w.reply == Answered {
      assert Cert(false, pem, true) in Listed(w) && pem in NewlyRevoked(Listed(w));
    }
  }

  /** The certificates a pass over the list puts on the CRL. */
  function NewlyRevoked(certs: seq<Cert>): set<string> {
    set c | c in certs && !c.revoked && c.pem != "" && c.crlAccepts :: c.pem
  }

  predicate DealtWith(certs: seq<Cert>, crl: set<string>) {
    forall c :: c in certs ==> c.revoked || c.pem in crl
  }

  /** The CRL once the turn's revocations are over. */
  function CrlAfter(crl: set<string>, w: World): set<string> {
    crl + w.swept + if Revocation(w).None? then {} else NewlyRevoked(Listed(w))
  }

  lemma {:induction false} PassStep(certs: seq<Cert>, i: nat)
    requires i < |certs|
    ensures AllRevocable(certs[..i + 1]) <==> AllRevocable(certs[..i]) && Revocable(certs[i])
    ensures var c := certs[i];
            NewlyRevoked(certs[..i + 1])
              == NewlyRevoked(certs[..i]) + if !c.revoked && c.pem != "" && c.crlAccepts then {c.pem} else {}
  {
    assert certs[..i + 1] == certs[..i] + [certs[i]];
    if !certs[i].revoked && certs[i].pem != "" && certs[i].crlAccepts {
      assert certs[i] in certs[..i + 1];
    }
  }

  class TakServerClient {
    var crl: set<string>

    constructor ()
      ensures crl == {}
    {
      crl := {};
    }

    /** Goes on past failures, and reports success only if the sweep and every listed certificate succeeded. */
    method RevokeAllUserCerts(w: World) returns (r: Option<bool>)
      modifies this
      ensures r == Revocation(w)
      ensures crl == CrlAfter(old(crl), w)
      ensures r == Some(true) ==> DealtWith(Listed(w), crl)
      ensures r == Some(true) <==> RevokesAll(w)
      ensures r == None <==> w.sweep == SweepRaised || w.reply == QueryRaised
    {
      RevocationIff(w);
      crl := crl + w.swept;
      if w.sweep == SweepRaised {
        return None;
      }
      var allOk := w.sweep == Swept;
      if w.reply == QueryRaised {
        return None;
      }
      var certs := Listed(w);
      for i := 0 to |certs|
        invariant allOk <==> w.sweep == Swept && AllRevocable(certs[..i])
        invariant crl == old(crl) + w.swept + NewlyRevoked(certs[..i])
      {
        var c := certs[i];
        PassStep(certs, i);
        if c.revoked {
          continue;
        }
        if c.pem == "" {
          allOk := false;
          continue;
        }
        if c.crlAccepts {
          crl := crl + {c.pem};
        } else {
          allOk := false;
        }
      }
      assert certs[..|certs|] == certs;
      return Some(allOk);
    }
  }

  // ---------------------------------------------------------------- one user's turn

  predicate IsActive(raw: Raw) {
    ACTIVE in Parsed(raw) ==> Parsed(raw)[ACTIVE] != Flag(false)
  }

  /** Whether the turn gets past deactivation. */
  predicate Proceeds(raw: Raw, w: World) {
    IsActive(raw) ==> w.deactivate.reported
  }

  /** The mark is asked for, with what it takes to write it. */
  predicate MarkAsked(raw: Raw, hasTak: bool, w: World) {
    Proceeds(raw, w) && hasTak && Revocation(w) == Some(true) && !w.mark.readFails
  }

  /** The mark is stored, whatever the caller is told. */
  predicate GetsMarked(raw: Raw, hasTak: bool, w: World) {
    MarkAsked(raw, hasTak, w) && w.mark.write.applied
  }

  function AfterTurn(raw: Raw, hasTak: bool, w: World): Raw {
    var stopped := if IsActive(raw) && w.deactivate.applied then Deactivated(raw) else raw;
    if GetsMarked(raw, hasTak, w) then Marked(stopped) else stopped
  }

  predicate StoredInactive(raw: Raw) {
    Reads(Parsed(raw), ACTIVE, Flag(false))
  }

  /** The mark is stored: the user was inactive or is reported deactivated, and everything after that went well. */
  predicate MarkStored(raw: Raw, hasTak: bool, w: World) {
    && (StoredInactive(raw) || w.deactivate.reported) && hasTak && RevokesAll(w)
    && !w.mark.readFails && w.mark.write.applied
  }

  /** The log reports the mark, which may differ from its being stored in the last request's outcome. */
  predicate MarkReported(raw: Raw, hasTak: bool, w: World) {
    && (StoredInactive(raw) || w.deactivate.reported) && hasTak && RevokesAll(w)
    && !w.mark.readFails && w.mark.write.reported
  }

  /**
    A user's turn, as a reader of the store finds it: an applied deactivation of an active user
    shows, an inactive user stays inactive, the revoked mark appears when it is stored, and
    nothing else changes.
  */
  predicate Turned(before: Raw, after: Raw, hasTak: bool, w: World) {
    && (if StoredInactive(before) || w.deactivate.applied then Reads(Parsed(after), ACTIVE, Flag(false))
        else ReadsAlike(Parsed(before), Parsed(after), ACTIVE))
    && (if MarkStored(before, hasTak, w) then Reads(Parsed(after), REVOKED, Flag(true))
        else ReadsAlike(Parsed(before), Parsed(after), REVOKED))
    && ReadsAlike(Parsed(before), Parsed(after), EXPIRES) && ReadsAlike(Parsed(before), Parsed(after), USER_TYPE)
    && UnknownUntouched(before, after)
    && (StoredInactive(before) && !MarkStored(before, hasTak, w) ==> after == before)
  }

  lemma {:induction false} TurnReads(raw: Raw, hasTak: bool, w: World)
    ensures Turned(raw, AfterTurn(raw, hasTak, w), hasTak, w)
  {
    RevocationIff(w);
    DeactivatingSetsOnlyActive(raw);
    MarkingSetsOnlyRevoked(raw);
    MarkingSetsOnlyRevoked(Deactivated(raw));
  }

  lemma {:induction false} ReportsIff(raw: Raw, hasTak: bool, w: World)
    ensures Reports(raw, hasTak, w) <==> MarkReported(raw, hasTak, w)
  {
    RevocationIff(w);
  }

  /** For a user stored as inactive, the deactivation request is not made, so how it would go does not matter. */
  lemma {:induction false} InactiveUsersAreNotDeactivated(raw: Raw, hasTak: bool, w: World, write: Write)
    requires StoredInactive(raw)
    ensures AfterTurn(raw, hasTak, w) == AfterTurn(raw, hasTak, w.(deactivate := write))
    ensures Reports(raw, hasTak, w) == Reports(raw, hasTak, w.(deactivate := write))
  {
    RevocationIff(w);
    RevocationIff(w.(deactivate := write));
  }

  /** An active user whose deactivation is reported failed stays pending, whatever would have come after. */
  lemma {:induction false} FailedDeactivationKeepsPending(raw: Raw, now: int, hasTak: bool, w: World)
    requires Pending(raw, now) && !StoredInactive(raw) && !w.deactivate.reported
    ensures Pending(AfterTurn(raw, hasTak, w), now) && !Reports(raw, hasTak, w)
  {
    TurnReads(raw, hasTak, w);
    ReportsIff(raw, hasTak, w);
  }

  /** A user leaves the pending set exactly when the mark is stored. */
  lemma {:induction false} LeavesPendingIff(raw: Raw, now: int, hasTak: bool, w: World)
    requires Pending(raw, now)
    ensures !Pending(AfterTurn(raw, hasTak, w), now) <==> GetsMarked(raw, hasTak, w)
  {
    DeactivatingKeepsPending(raw, now);
    MarkingEndsPending(raw, now);
    MarkingEndsPending(Deactivated(raw), now);
  }

  /** So only with a TAK client, a successful sweep, and every listed certificate dealt with. */
  lemma {:induction false} LeavesPendingOnlyWhenRevoked(raw: Raw, now: int, hasTak: bool, w: World, c: Cert)
    ensures Pending(raw, now) && !Pending(AfterTurn(raw, hasTak, w), now) ==>
              hasTak && w.sweep == Swept && (c in Listed(w) ==> Revocable(c))
  {
    if Pending(raw, now) {
      LeavesPendingIff(raw, now, hasTak, w);
    }
  }

  /** The server holds a certificate that TLS still accepts: what counts is the CRL, not certadmin's flag. */
  predicate HoldsValid(w: World, crl: set<string>) {
    exists c :: c in w.held && c.pem !in crl
  }

  /** One that certadmin calls revoked, so that the pass over the list skips it. */
  predicate SkipsValid(w: World, crl: set<string>) {
    exists c :: c in w.held && c.revoked && c.pem !in crl
  }

  lemma {:induction false} ListedValidIsFlagged(w: World, crl: set<string>)
    requires Revocation(w) == Some(true) && w.reply == Answered
    ensures HoldsValid(w, CrlAfter(crl, w)) <==> SkipsValid(w, CrlAfter(crl, w))
  {
    forall c | c in w.held && !c.revoked ensures c.pem in CrlAfter(crl, w) {
      assert c in Listed(w) && c.pem in NewlyRevoked(Listed(w));
    }
  }

  /**
    A user is marked with a valid certificate left exactly when the mark is stored after a
    successful sweep and either the query met an HTTP error while the server held one the
    sweep does not cover, or every listed one was dealt with but one only by its flag.
  */
  lemma {:induction false} MarkedWithValidIff(raw: Raw, hasTak: bool, w: World, crl: set<string>)
    ensures GetsMarked(raw, hasTak, w) && HoldsValid(w, CrlAfter(crl, w)) <==>
            && Proceeds(raw, w) && hasTak && w.sweep == Swept && !w.mark.readFails && w.mark.write.applied
            && (|| (w.reply == HttpFailed && HoldsValid(w, crl + w.swept))
                || (w.reply == Answered && AllRevocable(w.held)
                    && SkipsValid(w, crl + w.swept + NewlyRevoked(w.held))))
  {
    if Revocation(w) == Some(true) && w.reply == Answered {
      ListedValidIsFlagged(w, crl);
    }
    assert w.reply == HttpFailed ==> NewlyRevoked(Listed(w)) == {};
  }

  /** So nobody is left with a valid certificate when the query answers and no flag lies about the CRL. */
  lemma {:induction false} MarkedMeansRevoked(raw: Raw, hasTak: bool, w: World, crl: set<string>)
    requires w.reply == Answered && forall c :: c in w.held && c.revoked ==> c.pem in crl
    ensures GetsMarked(raw, hasTak, w) ==> !HoldsValid(w, CrlAfter(crl, w))
  {
    MarkedWithValidIff(raw, hasTak, w, crl);
  }

  const DONE := Write(true, true)

  /** That happens to any user after an HTTP error in an otherwise smooth turn. */
  lemma {:induction false} HttpErrorMarksTheUnrevoked(raw: Raw)
    ensures var w := World(DONE, Swept, {}, [Cert(false, "pem", true)], HttpFailed, Requests(false, DONE));
            GetsMarked(raw, true, w) && HoldsValid(w, CrlAfter({}, w))
  {
    var w := World(DONE, Swept, {}, [Cert(false, "pem", true)], HttpFailed, Requests(false, DONE));
    assert Listed(w) == [] && w.held[0] in w.held;
    assert w.held[0].pem !in CrlAfter({}, w);
  }

  /** It also happens with no error at all: certadmin flags a certificate that never reached the CRL. */
  lemma {:induction false} FlaggedCertMarksTheUnrevoked(raw: Raw)
    ensures var w := World(DONE, Swept, {}, [Cert(true, "pem", true)], Answered, Requests(false, DONE));
            GetsMarked(raw, true, w) && HoldsValid(w, CrlAfter({}, w))
  {
    var w := World(DONE, Swept, {}, [Cert(true, "pem", true)], Answered, Requests(false, DONE));
    assert w.held[0] in w.held;
    assert NewlyRevoked(Listed(w)) == {};
    assert w.held[0].pem !in CrlAfter({}, w);
  }

  // ---------------------------------------------------------------- the tick

  function PendingUsers(users: map<string, Raw>, now: int): set<string> {
    set u | u in users && Pending(users[u], now)
  }

  function MarkedUsers(users: map<string, Raw>, now: int, hasTak: bool, world: string -> World): set<string> {
    set u | u in users && Pending(users[u], now) && GetsMarked(users[u], hasTak, world(u))
  }

  /** Every user's own turn, and nobody else's, decides what becomes of them. */
  function AfterTick(users: map<string, Raw>, now: int, hasTak: bool, world: string -> World): map<string, Raw> {
    map u | u in users :: if Pending(users[u], now) then AfterTurn(users[u], hasTak, world(u)) else users[u]
  }

  /** At a fixed time the pending count falls by exactly the number marked. */
  lemma {:induction false} PendingFallsByMarked(users: map<string, Raw>, now: int, hasTak: bool, world: string -> World)
    ensures var after := AfterTick(users, now, hasTak, world);
            && PendingUsers(after, now) == PendingUsers(users, now) - MarkedUsers(users, now, hasTak, world)
            && |PendingUsers(after, now)| == |PendingUsers(users, now)| - |MarkedUsers(users, now, hasTak, world)|
    ensures !hasTak ==> MarkedUsers(users, now, hasTak, world) == {}
  {
    var after := AfterTick(users, now, hasTak, world);
    forall u | u in users ensures u in PendingUsers(after, now) <==>
        u in PendingUsers(users, now) - MarkedUsers(users, now, hasTak, world)
    {
      if Pending(users[u], now) {
        LeavesPendingIff(users[u], now, hasTak, world(u));
      }
    }
    assert PendingUsers(after, now) == PendingUsers(users, now) - MarkedUsers(users, now, hasTak, world);
    assert MarkedUsers(users, now, hasTak, world) <= PendingUsers(users, now);
  }

  /** The users the log reports as done, who need not be those whose mark is stored. */
  function ReportedUsers(users: map<string, Raw>, now: int, hasTak: bool, world: string -> World): set<string> {
    set u | u in users && Pending(users[u], now) && Reports(users[u], hasTak, world(u))
  }

  /** One tick. An exception in one user's turn ends that turn only. */
  method CheckUserExpiry(ak: IdentityClient, tak: TakServerClient?, queryFails: bool, now: int, world: string -> World)
    returns (done: set<string>)
    modifies ak, tak
    ensures queryFails ==> ak.users == old(ak.users) && done == {}
    ensures !queryFails ==>
              && ak.users == AfterTick(old(ak.users), now, tak != null, world)
              && done == ReportedUsers(old(ak.users), now, tak != null, world)
    ensures ak.users.Keys == old(ak.users).Keys
    ensures !queryFails ==>
              forall u :: u in old(ak.users) ==>
                && (if Pending(old(ak.users)[u], now)
                    then Turned(old(ak.users)[u], ak.users[u], tak != null, world(u))
                    else ak.users[u] == old(ak.users)[u])
    ensures !queryFails ==>
              forall u :: u in old(ak.users) && Pending(old(ak.users)[u], now) && world(u).deactivate.applied ==>
                Reads(Parsed(ak.users[u]), ACTIVE, Flag(false))
    ensures !queryFails ==>
              forall u :: u in done <==>
                && u in old(ak.users) && Pending(old(ak.users)[u], now)
                && MarkReported(old(ak.users)[u], tak != null, world(u))
    ensures tak != null && !queryFails ==>
              forall u :: u in MarkedUsers(old(ak.users), now, true, world) ==> DealtWith(Listed(world(u)), tak.crl)
  {
    if queryFails {
      return {};
    }
    forall u | u in ak.users
      ensures Turned(ak.users[u], AfterTurn(ak.users[u], tak != null, world(u)), tak != null, world(u))
      ensures Reports(ak.users[u], tak != null, world(u)) <==> MarkReported(ak.users[u], tak != null, world(u))
    {
      TurnReads(ak.users[u], tak != null, world(u));
      ReportsIff(ak.users[u], tak != null, world(u));
    }
    var pending := PendingUsers(ak.users, now);
    done := TakeTurns(ak, tak, pending, world, AfterTick(ak.users, now, tak != null, world),
                      MarkedUsers(ak.users, now, tak != null, world), ReportedUsers(ak.users, now, tak != null, world));
  }

  /** The loop over the pending users, towards a state, marks and reports known for each of them. */
  method TakeTurns(ak: IdentityClient, tak: TakServerClient?, pending: set<string>, world: string -> World,
                   ghost after: map<string, Raw>, ghost marked: set<string>, ghost reported: set<string>)
    returns (done: set<string>)
    requires pending <= ak.users.Keys == after.Keys && marked <= pending && reported <= pending
    requires forall u :: u in pending ==>
               && after[u] == AfterTurn(ak.users[u], tak != null, world(u))
               && (u in marked <==> GetsMarked(ak.users[u], tak != null, world(u)))
               && (u in reported <==> Reports(ak.users[u], tak != null, world(u)))
    requires forall u :: u in after && u !in pending ==> after[u] == ak.users[u]
    modifies ak, tak
    ensures ak.users == after && done == reported
    ensures tak != null ==> forall u :: u in marked ==> DealtWith(Listed(world(u)), tak.crl)
  {
    done := {};
    var left := pending;
    ghost var before := ak.users;
    while left != {}
      invariant left <= pending && ak.users.Keys == before.Keys
      invariant forall u :: u in before ==> ak.users[u] == if u in left then before[u] else after[u]
      invariant done == reported - left
      invariant tak != null ==> forall u :: u in marked && u !in left ==> DealtWith(Listed(world(u)), tak.crl)
    {
      var u :| u in left;
      var ok := Turn(ak, tak, u, world(u));
      assert ok <==> u in reported;
      OneMoreDone(reported, left, u);
      left := left - {u};
      if ok {
        done := done + {u};
      }
    }
  }

  lemma {:induction false} OneMoreDone(reported: set<string>, left: set<string>, u: string)
    requires u in left
    ensures reported - (left - {u}) == (reported - left) + if u in reported then {u} else {}
  {
  }

  /** The turn ends by logging that the certificates are revoked. */
  predicate Reports(raw: Raw, hasTak: bool, w: World) {
    MarkAsked(raw, hasTak, w) && w.mark.write.reported
  }

  method Turn(ak: IdentityClient, tak: TakServerClient?, user: string, w: World) returns (ok: bool)
    requires user in ak.users
    modifies ak, tak
    ensures ak.users == old(ak.users)[user := AfterTurn(old(ak.users)[user], tak != null, w)]
    ensures ok <==> Reports(old(ak.users)[user], tak != null, w)
    ensures ok <==> MarkReported(old(ak.users)[user], tak != null, w)
    ensures tak != null ==>
              tak.crl == if StoredInactive(old(ak.users)[user]) || w.deactivate.reported
                         then CrlAfter(old(tak.crl), w) else old(tak.crl)
    ensures tak != null && GetsMarked(old(ak.users)[user], true, w) ==> DealtWith(Listed(w), tak.crl)
  {
    ReportsIff(ak.users[user], tak != null, w);
    if IsActive(ak.users[user]) {
      ok := ak.DeactivateUser(user, w.deactivate);
      if !ok {
        return false;
      }
    }
    if tak == null {
      return false;
    }
    var revoked := tak.RevokeAllUserCerts(w);
    if revoked != Some(true) {
      return false;
    }
    ok := ak.MarkCertsRevoked(user, w.mark);
  }
}
