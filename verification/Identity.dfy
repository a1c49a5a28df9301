/** The identity client's read-modify-write of user attributes, and its group replacement. */
module Identity {
  import opened Options
  import opened Attributes

  // ---------------------------------------------------------------- what each call writes

  function Marked(raw: Raw): Raw {
    raw + RawOf(Parsed(raw)[REVOKED := Flag(true)])
  }

  function Deactivated(raw: Raw): Raw {
    raw + RawOf(map[ACTIVE := Flag(false)])
  }

  function Updated(raw: Raw, requested: Attrs): Raw {
    if requested == map[] then raw else raw + RawOf((Parsed(raw) - requested.Keys) + requested)
  }

  predicate UnknownUntouched(before: Raw, after: Raw) {
    forall name :: name in before && !Known(name) ==> name in after && after[name] == before[name]
  }

  /** Replacing entries of a dictionary without cleared ones, then dropping what is cleared. */
  lemma {:induction false} MergeOfPresent(p: Attrs, request: Attrs)
    requires WellTyped(p) && Present(p) == p && WellTyped(request)
    ensures var merged := (p - request.Keys) + request;
            WellTyped(merged) && (p - merged.Keys) + Present(merged) == (p - request.Keys) + Present(request)
  {
    var merged := (p - request.Keys) + request;
    PresentHasNoClear(p);
    MergedIsPresent(p, request);
    NothingBesides(p, merged, Present(merged));
  }

  lemma {:induction false} PresentHasNoClear(p: Attrs)
    requires Present(p) == p
    ensures forall name :: name in p ==> p[name] != Clear
  {
    forall name | name in p ensures p[name] != Clear {
      assert name in Present(p);
    }
  }

  lemma {:induction false} NothingBesides(p: Attrs, merged: Attrs, rest: Attrs)
    requires p.Keys <= merged.Keys
    ensures (p - merged.Keys) + rest == rest
  {
    assert p - merged.Keys == map[];
  }

  lemma {:induction false} MergedIsPresent(p: Attrs, request: Attrs)
    requires forall name :: name in p ==> p[name] != Clear
    ensures Present((p - request.Keys) + request) == (p - request.Keys) + Present(request)
  {
  }

  lemma {:induction false} MergeOfOne(p: Attrs, name: string, v: Value)
    requires v != Clear
    ensures var request := map[name := v];
            && (p - request.Keys) + request == p[name := v]
            && (p - request.Keys) + Present(request) == p[name := v]
  {
  }

  lemma {:induction false} MergeThenRead(raw: Raw, request: Attrs)
    requires WellTyped(request)
    ensures var after := raw + RawOf((Parsed(raw) - request.Keys) + request);
            Parsed(after) == (Parsed(raw) - request.Keys) + Present(request) && UnknownUntouched(raw, after)
  {
    ParsedIsWellTyped(raw);
    MergeOfPresent(Parsed(raw), request);
    WriteThenRead(raw, (Parsed(raw) - request.Keys) + request);
    UnknownNotWritten(raw, (Parsed(raw) - request.Keys) + request);
  }

  lemma {:induction false} UnknownNotWritten(raw: Raw, attrs: Attrs)
    requires WellTyped(attrs)
    ensures UnknownUntouched(raw, raw + RawOf(attrs))
  {
  }

  /** Marking changes the revoked flag and nothing else a reader can see. */
  lemma {:induction false} MarkingSetsOnlyRevoked(raw: Raw)
    ensures Parsed(Marked(raw)) == Parsed(raw)[REVOKED := Flag(true)] && UnknownUntouched(raw, Marked(raw))
  {
    MergeThenRead(raw, map[REVOKED := Flag(true)]);
    MergeOfOne(Parsed(raw), REVOKED, Flag(true));
  }

  lemma {:induction false} DeactivatingSetsOnlyActive(raw: Raw)
    ensures Parsed(Deactivated(raw)) == Parsed(raw)[ACTIVE := Flag(false)] && UnknownUntouched(raw, Deactivated(raw))
  {
    var attrs: Attrs := map[ACTIVE := Flag(false)];
    WriteThenRead(raw, attrs);
    assert Present(attrs) == attrs;
    assert (Parsed(raw) - attrs.Keys) + attrs == Parsed(raw)[ACTIVE := Flag(false)];
  }

  /** An update gives exactly the requested attributes their requested values, clearing those asked to be cleared. */
  lemma {:induction false} UpdatingSetsOnlyRequested(raw: Raw, requested: Attrs)
    requires WellTyped(requested)
    ensures Parsed(Updated(raw, requested)) == (Parsed(raw) - requested.Keys) + Present(requested)
    ensures UnknownUntouched(raw, Updated(raw, requested))
  {
    if requested == map[] {
      assert (Parsed(raw) - requested.Keys) + Present(requested) == Parsed(raw);
    } else {
      MergeThenRead(raw, requested);
    }
  }

  // ---------------------------------------------------------------- update_user's arguments

  datatype Ttl = Unchanged | Never | Until(expires: int)

  /** Reactivation and a new ttl both call for fresh revocation; dropping the ttl drops the flag too. */
  function Requested(isActive: Option<bool>, ttl: Ttl): Attrs {
    var fromActive: Attrs :=
      match isActive
      case None => map[]
      case Some(true) => map[ACTIVE := Flag(true), REVOKED := Flag(false)]
      case Some(false) => map[ACTIVE := Flag(false)];
    match ttl
    case Unchanged => fromActive
    case Never => fromActive[EXPIRES := Clear][REVOKED := Clear]
    case Until(n) => fromActive[EXPIRES := Number(n)][REVOKED := Flag(false)]
  }

  /** A reader finds the same under a name. */
  predicate ReadsAlike(before: Attrs, after: Attrs, name: string) {
    (name in after <==> name in before) && (name in after ==> after[name] == before[name])
  }

  predicate Reads(attrs: Attrs, name: string, v: Value) {
    name in attrs && attrs[name] == v
  }

  /** What a reader finds after an update, beside what one found before it. */
  predicate AsAsked(before: Attrs, after: Attrs, isActive: Option<bool>, ttl: Ttl) {
    && (if isActive.Some? then Reads(after, ACTIVE, Flag(isActive.value)) else ReadsAlike(before, after, ACTIVE))
    && (match ttl
        case Unchanged => ReadsAlike(before, after, EXPIRES)
        case Never => EXPIRES !in after && REVOKED !in after
        case Until(n) => Reads(after, EXPIRES, Number(n)) && Reads(after, REVOKED, Flag(false)))
    && (ttl == Unchanged ==>
          if isActive == Some(true) then Reads(after, REVOKED, Flag(false)) else ReadsAlike(before, after, REVOKED))
    && ReadsAlike(before, after, USER_TYPE)
  }

  /** The request carries just the attributes the arguments speak of, each with what they ask for. */
  predicate Asks(update: Attrs, isActive: Option<bool>, ttl: Ttl) {
    && (ACTIVE in update <==> isActive.Some?) && (ACTIVE in update ==> update[ACTIVE] == Flag(isActive.value))
    && (EXPIRES in update <==> ttl != Unchanged)
    && (EXPIRES in update ==> update[EXPIRES] == if ttl.Never? then Clear else Number(ttl.expires))
    && (REVOKED in update <==> ttl != Unchanged || isActive == Some(true))
    && (REVOKED in update ==> update[REVOKED] == if ttl.Never? then Clear else Flag(false))
    && update.Keys <= {ACTIVE, EXPIRES, REVOKED}
  }

  lemma {:induction false} ReadsAsAsked(before: Attrs, update: Attrs, isActive: Option<bool>, ttl: Ttl)
    requires Asks(update, isActive, ttl)
    ensures AsAsked(before, (before - update.Keys) + Present(update), isActive, ttl)
  {
    assert USER_TYPE !in update.Keys;
  }

  /** An update does what its arguments say and nothing more, as a reader of the store finds it. */
  lemma {:induction false} UpdateReadsAsAsked(raw: Raw, isActive: Option<bool>, ttl: Ttl)
    ensures var after := Updated(raw, Requested(isActive, ttl));
            AsAsked(Parsed(raw), Parsed(after), isActive, ttl) && UnknownUntouched(raw, after)
  {
    var requested := Requested(isActive, ttl);
    UpdatingSetsOnlyRequested(raw, requested);
    ReadsAsAsked(Parsed(raw), requested, isActive, ttl);
  }

  /** After a bare reactivation the old expiry is enforced afresh: due exactly if it has passed. */
  lemma {:induction false} ReactivatedIsDueIff(before: Attrs, after: Attrs, now: int)
    requires AsAsked(before, after, Some(true), Unchanged)
    ensures Due(after, now) <==> EXPIRES in before && before[EXPIRES].Number? && before[EXPIRES].n <= now
  {
  }

  predicate Pending(raw: Raw, now: int) {
    Due(Parsed(raw), now)
  }

  /** Expired, and not yet marked revoked. */
  predicate Due(attrs: Attrs, now: int) {
    && EXPIRES in attrs && attrs[EXPIRES].Number? && attrs[EXPIRES].n <= now
    && !(REVOKED in attrs && attrs[REVOKED] == Flag(true))
  }

  lemma {:induction false} RequestDecides(before: Attrs, requested: Attrs, ttl: Ttl, now: int)
    requires ttl != Unchanged && {EXPIRES, REVOKED} <= requested.Keys
    requires requested[EXPIRES] == if ttl.Until? then Number(ttl.expires) else Clear
    requires requested[REVOKED] != Flag(true)
    ensures Due((before - requested.Keys) + Present(requested), now) <==> ttl.Until? && ttl.expires <= now
  {
    var after := (before - requested.Keys) + Present(requested);
    assert EXPIRES in after <==> ttl.Until?;
    assert !(REVOKED in after && after[REVOKED] == Flag(true));
  }

  /** A new ttl alone decides when enforcement is due, whatever the user's flags were. */
  lemma {:induction false} NewTtlDecidesPending(raw: Raw, isActive: Option<bool>, ttl: Ttl, now: int)
    requires ttl != Unchanged
    ensures Pending(Updated(raw, Requested(isActive, ttl)), now) <==> ttl.Until? && ttl.expires <= now
  {
    var requested := Requested(isActive, ttl);
    UpdatingSetsOnlyRequested(raw, requested);
    RequestDecides(Parsed(raw), requested, ttl, now);
  }

  lemma {:induction false} MarkingEndsPending(raw: Raw, now: int)
    ensures !Pending(Marked(raw), now)
  {
    MarkingSetsOnlyRevoked(raw);
  }

  lemma {:induction false} DeactivatingKeepsPending(raw: Raw, now: int)
    ensures Pending(Deactivated(raw), now) <==> Pending(raw, now)
  {
    DeactivatingSetsOnlyActive(raw);
  }

  // ---------------------------------------------------------------- the client

  /**
    How a call's requests to LLDAP go. A write whose reply is lost takes effect and raises;
    one whose error speaks of a duplicate is reported done and has no effect.
  */
  datatype Requests = Requests(readFails: bool, write: Write)

  lemma {:induction false} UpdateReads(users: map<string, Raw>, user: string, isActive: Option<bool>, ttl: Ttl)
    ensures Requested(isActive, ttl) == map[] <==> isActive == None && ttl == Unchanged
    ensures user in users ==>
              var after := Updated(users[user], Requested(isActive, ttl));
              && AsAsked(Parsed(users[user]), Parsed(after), isActive, ttl)
              && UnknownUntouched(users[user], after)
  {
    assert isActive.Some? ==> ACTIVE in Requested(isActive, ttl);
    assert ttl != Unchanged ==> EXPIRES in Requested(isActive, ttl);
    if user in users {
      UpdateReadsAsAsked(users[user], isActive, ttl);
    }
  }

  class IdentityClient {
    var users: map<string, Raw>
    var names: map<string, string>  // display names

    constructor (users: map<string, Raw>, names: map<string, string>)
      ensures this.users == users && this.names == names
    {
      this.users, this.names := users, names;
    }

    /** LLDAP's attribute list for a user, in its own order. */
    method Fetch(user: string) returns (entries: seq<Entry>)
      requires user in users
      ensures Listing(entries, users[user])
    {
      entries := [];
      var left := users[user].Keys;
      while left != {}
        invariant left <= users[user].Keys
        invariant Listing(entries, map name | name in users[user].Keys - left :: users[user][name])
      {
        var name :| name in left;
        entries, left := entries + [Entry(name, users[user][name])], left - {name};
      }
      assert (map name | name in users[user].Keys - left :: users[user][name]) == users[user];
    }

    /** LLDAP's insertAttributes: each named attribute takes the given value. */
    method Insert(user: string, entries: seq<Entry>, ghost written: Raw)
      requires user in users && Listing(entries, written)
      modifies this`users
      ensures users == old(users)[user := old(users)[user] + written]
    {
      var raw := users[user];
      for i := 0 to |entries|
        invariant raw.Keys == old(users)[user].Keys + (set k | 0 <= k < i :: entries[k].name)
        invariant forall k :: 0 <= k < i ==> raw[entries[k].name] == entries[k].value
        invariant forall name :: name in old(users)[user] && (forall k :: 0 <= k < i ==> entries[k].name != name) ==>
                    raw[name] == old(users)[user][name]
      {
        raw := raw[entries[i].name := entries[i].value];
      }
      InsertedAll(old(users)[user], entries, written, raw);
      users := users[user := raw];
    }

    method MarkCertsRevoked(user: string, r: Requests) returns (ok: bool)
      modifies this`users
      ensures ok <==> user in old(users) && !r.readFails && r.write.reported
      ensures users == if user in old(users) && !r.readFails && r.write.applied
                       then old(users)[user := Marked(old(users)[user])] else old(users)
    {
      if user !in users || r.readFails {
        return false;
      }
      var entries := Fetch(user);
      var attrs := ParseAttributes(entries, users[user]);
      attrs := attrs[REVOKED := Flag(true)];
      var written := BuildCustomAttributes(attrs);
      if r.write.applied {
        Insert(user, written, RawOf(attrs));
      }
      return r.write.reported;
    }

    method DeactivateUser(user: string, write: Write) returns (ok: bool)
      modifies this`users
      ensures ok <==> user in old(users) && write.reported
      ensures users == if user in old(users) && write.applied
                       then old(users)[user := Deactivated(old(users)[user])] else old(users)
    {
      if user !in users {
        return false;
      }
      var attrs: Attrs := map[ACTIVE := Flag(false)];
      var written := BuildCustomAttributes(attrs);
      if write.applied {
        Insert(user, written, RawOf(attrs));
      }
      return write.reported;
    }

    /**
      Builds the request, merges it over what is stored, and appends the cleared names. A new
      display name goes in the same request, so either both take effect or neither does. The
      user is read back at the end, whatever was sent, and a failure there is a failure of the call.
    */
    method UpdateUser(user: string, isActive: Option<bool>, ttl: Ttl, name: Option<string>, r: Requests,
                      readBackFails: bool)
      returns (ok: bool)
      modifies this
      ensures var requested := Requested(isActive, ttl);
              var nothing := requested == map[] && name == None;
              var ready := user in old(users) && (requested == map[] || !r.readFails);
              var done := ready && !nothing && r.write.applied;
              && (ok <==> ready && (nothing || r.write.reported) && !readBackFails)
              && users == (if done then old(users)[user := Updated(old(users)[user], requested)] else old(users))
              && names == if done && name.Some? then old(names)[user := name.value] else old(names)
      ensures user in old(users) && (isActive.Some? || ttl != Unchanged) && !r.readFails && r.write.applied ==>
                && user in users && UnknownUntouched(old(users)[user], users[user])
                && AsAsked(Parsed(old(users)[user]), Parsed(users[user]), isActive, ttl)
                && users == old(users)[user := users[user]]
      ensures user !in old(users) || (isActive == None && ttl == Unchanged) || r.readFails || !r.write.applied ==>
                users == old(users)
      ensures names == if && user in old(users) && name.Some? && r.write.applied
                          && ((isActive == None && ttl == Unchanged) || !r.readFails)
                       then old(names)[user := name.value] else old(names)
      ensures ok <==>
                && user in old(users) && !readBackFails && ((isActive == None && ttl == Unchanged) || !r.readFails)
                && ((isActive == None && ttl == Unchanged && name == None) || r.write.reported)
    {
      UpdateReads(old(users), user, isActive, ttl);
      if user !in users {
        return false;
      }
      var update := BuildRequest(isActive, ttl);
      if update == map[] && name.None? {
        return !readBackFails;
      }
      if update != map[] {
        if r.readFails {
          return false;
        }
        var entries := Fetch(user);
        var existing := ParseAttributes(entries, users[user]);
        var custom := Merge(existing, update);
        if r.write.applied {
          Insert(user, custom, RawOf((existing - update.Keys) + update));
        }
      }
      if name.Some? && r.write.applied {
        names := names[user := name.value];
      }
      return r.write.reported && !readBackFails;
    }
  }

  method BuildRequest(isActive: Option<bool>, ttl: Ttl) returns (update: Attrs)
    ensures update == Requested(isActive, ttl) && Asks(update, isActive, ttl)
  {
    update := map[];
    if isActive.Some? {
      update := update[ACTIVE := Flag(isActive.value)];
      if isActive.value {
        update := update[REVOKED := Flag(false)];
      }
    }
    if ttl.Never? {
      update := update[EXPIRES := Clear][REVOKED := Clear];
    } else if ttl.Until? {
      update := update[EXPIRES := Number(ttl.expires)];
      if REVOKED !in update {
        update := update[REVOKED := Flag(false)];
      }
    }
  }

  lemma {:induction false} ClearedLast(existing: Attrs, update: Attrs, cleared: Attrs)
    requires forall name :: name in cleared ==> name in update && cleared[name] == update[name]
    ensures (existing - update.Keys) + (update - cleared.Keys) + cleared == (existing - update.Keys) + update
  {
  }

  method Merge(existing: Attrs, update: Attrs) returns (custom: seq<Entry>)
    ensures Listing(custom, RawOf((existing - update.Keys) + update))
  {
    var cleared := map name | name in update && update[name] == Clear :: update[name];
    var kept := (existing - update.Keys) + (update - cleared.Keys);
    custom := BuildCustomAttributes(kept);
    var clears := BuildCustomAttributes(cleared);
    ListingsJoin(custom, kept, clears, cleared);
    ClearedLast(existing, update, cleared);
    custom := custom + clears;
  }

  lemma {:induction false} InsertedAll(before: Raw, entries: seq<Entry>, written: Raw, after: Raw)
    requires Listing(entries, written)
    requires after.Keys == before.Keys + (set k | 0 <= k < |entries| :: entries[k].name)
    requires forall k :: 0 <= k < |entries| ==> after[entries[k].name] == entries[k].value
    requires forall name :: name in before && (forall k :: 0 <= k < |entries| ==> entries[k].name != name) ==>
               after[name] == before[name]
    ensures after == before + written
  {
    forall name | name in written ensures name in after && after[name] == written[name] {
      assert Entry(name, written[name]) in entries;
    }
    forall k | 0 <= k < |entries| ensures entries[k].name in written {
      assert entries[k] in entries;
    }
  }

  lemma {:induction false} ListingsJoin(es: seq<Entry>, a: Attrs, fs: seq<Entry>, b: Attrs)
    requires Listing(es, RawOf(a)) && Listing(fs, RawOf(b)) && a.Keys !! b.Keys
    ensures Listing(es + fs, RawOf(a + b))
  {
    forall i, j | 0 <= i < |es| && 0 <= j < |fs| ensures es[i].name != fs[j].name {
      assert es[i] in es && fs[j] in fs;
    }
    forall name | name in RawOf(a + b) ensures Entry(name, RawOf(a + b)[name]) in es + fs {
      if name in b {
        assert Entry(name, RawOf(b)[name]) in fs;
      } else {
        assert Entry(name, RawOf(a)[name]) in es;
      }
    }
  }
}
