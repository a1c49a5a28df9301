/**
  Replacing a user's tak_ groups by mutations sent one at a time, any of which may fail.
  Group names are unique, as LLDAP keeps them; ids are what the mutations carry.
*/
module Groups {
  import opened Options

  datatype GroupId = GroupId(number: int)

  const TAK := "tak_"

  function TakName(name: string): string {
    if TAK <= name then name else TAK + name
  }

  function Desired(names: seq<string>): set<string> {
    set n | n in names :: TakName(n)
  }

  predicate UniqueNames(groups: map<GroupId, string>) {
    forall g, h :: g in groups && h in groups && groups[g] == groups[h] ==> g == h
  }

  function NonTak(groups: map<GroupId, string>, members: set<GroupId>): set<GroupId> {
    set g | g in members && g in groups && !(TAK <= groups[g])
  }

  /** Where a replacement is headed: the non-tak_ groups kept, and the desired ones that exist. */
  function Target(groups: map<GroupId, string>, members: set<GroupId>, desired: set<string>): set<GroupId> {
    NonTak(groups, members) + set g | g in groups && groups[g] in desired
  }

  /** The target depends on the non-tak_ part alone, so any partial run can be repeated to the same end. */
  lemma {:induction false} TargetSurvivesPartialRuns(groups: map<GroupId, string>, members: set<GroupId>,
                                                     partial: set<GroupId>, names: seq<string>)
    requires NonTak(groups, partial) == NonTak(groups, members)
    ensures Target(groups, partial, Desired(names)) == Target(groups, members, Desired(names))
    ensures var target := Target(groups, members, Desired(names));
            Target(groups, target, Desired(names)) == target
  {
    DesiredAreTak(names);
    var target := Target(groups, members, Desired(names));
    assert NonTak(groups, target) == NonTak(groups, members);
  }

  lemma {:induction false} DesiredAreTak(names: seq<string>)
    ensures forall n :: n in Desired(names) ==> TAK <= n
  {
  }

  /** The user belongs in a tak_ group that is named, with or without the prefix, and in the others they were in. */
  predicate Belongs(groups: map<GroupId, string>, before: set<GroupId>, names: seq<string>, g: GroupId) {
    g in groups &&
    if "tak_" <= groups[g] then
      groups[g] in names || (groups[g][4..] in names && !("tak_" <= groups[g][4..]))
    else g in before
  }

  lemma {:induction false} PrefixSplits(name: string)
    requires "tak_" <= name
    ensures name == "tak_" + name[4..]
  {
  }

  lemma {:induction false} BelongsIffTarget(groups: map<GroupId, string>, before: set<GroupId>, names: seq<string>,
                                            g: GroupId)
    ensures g in Target(groups, before, Desired(names)) <==> Belongs(groups, before, names, g)
  {
    DesiredAreTak(names);
    if g in groups && "tak_" <= groups[g] {
      PrefixSplits(groups[g]);
      forall n | n in names ensures TakName(n) == groups[g] <==>
          n == groups[g] || (n == groups[g][4..] && !("tak_" <= n))
      {
        assert ("tak_" + n)[4..] == n;
      }
      assert groups[g] in Desired(names) <==> exists n :: n in names && TakName(n) == groups[g];
    }
  }

  predicate Undesired(groups: map<GroupId, string>, g: GroupId, desired: set<string>) {
    g in groups && TAK <= groups[g] && groups[g] !in desired
  }

  /** The groups of the given names that are yet to be joined. */
  function Missing(groups: map<GroupId, string>, current: set<GroupId>, names: set<string>): set<GroupId> {
    set g | g in groups && groups[g] in names && g !in current
  }

  lemma {:induction false} MissingStep(groups: map<GroupId, string>, current: set<GroupId>, names: set<string>,
                                       name: string, found: Option<GroupId>)
    requires UniqueNames(groups)
    requires found.Some? ==> found.value in groups && groups[found.value] == name && found.value !in current
    requires found.None? ==> forall g :: g in groups && groups[g] == name ==> g in current
    ensures Missing(groups, current, names + {name})
              == Missing(groups, current, names) + if found.Some? then {found.value} else {}
  {
  }

  // ---------------------------------------------------------------- requests

  datatype Mutation = Remove(group: GroupId) | Add(group: GroupId)

  /** A request made for a user, and how it went. */
  datatype Request = Request(user: string, m: Mutation, write: Write)

  /** Every request is for the user and about the difference between where they are and where they go. */
  predicate Moves(requests: seq<Request>, user: string, before: set<GroupId>, target: set<GroupId>) {
    forall r :: r in requests ==>
      r.user == user && if r.m.Remove? then r.m.group in before - target else r.m.group in target - before
  }

  predicate AllApplied(requests: seq<Request>) {
    forall r :: r in requests ==> r.write.applied
  }

  predicate AllReported(requests: seq<Request>) {
    forall r :: r in requests ==> r.write.reported
  }

  /** Requests of one kind, all for one user. */
  predicate Uniform(requests: seq<Request>, user: string, removal: bool) {
    forall r :: r in requests ==> r.user == user && r.m.Remove? == removal
  }

  function Asked(requests: seq<Request>): set<GroupId> {
    set r | r in requests :: r.m.group
  }

  function Applied(requests: seq<Request>): set<GroupId> {
    set r | r in requests && r.write.applied :: r.m.group
  }

  lemma {:induction false} RequestsStep(requests: seq<Request>, r: Request)
    ensures Asked(requests + [r]) == Asked(requests) + {r.m.group}
    ensures Applied(requests + [r]) == Applied(requests) + if r.write.applied then {r.m.group} else {}
    ensures AllReported(requests + [r]) <==> AllReported(requests) && r.write.reported
    ensures forall user, removal :: Uniform(requests + [r], user, removal)
              <==> Uniform(requests, user, removal) && r.user == user && r.m.Remove? == removal
  {
    assert forall q :: q in requests + [r] <==> q in requests || q == r;
    assert r.write.applied ==> r.m.group in Applied(requests + [r]);
  }

  lemma {:induction false} RequestsJoin(a: seq<Request>, b: seq<Request>)
    ensures Asked(a + b) == Asked(a) + Asked(b) && Applied(a + b) == Applied(a) + Applied(b)
    ensures AllReported(a + b) <==> AllReported(a) && AllReported(b)
    ensures forall user, removal :: Uniform(a + b, user, removal)
              <==> Uniform(a, user, removal) && Uniform(b, user, removal)
  {
    assert forall r :: r in a + b <==> r in a || r in b;
    assert forall r :: r in b ==> r.m.group in Asked(b) && r in a + b;
  }

  lemma {:induction false} MissingGrows(groups: map<GroupId, string>, current: set<GroupId>, names: set<string>,
                                        more: set<string>)
    requires names <= more
    ensures Missing(groups, current, names) <= Missing(groups, current, more)
  {
  }

  lemma {:induction false} AppliedIsAsked(requests: seq<Request>)
    ensures Applied(requests) <= Asked(requests)
    ensures AllApplied(requests) ==> Applied(requests) == Asked(requests)
    ensures Asked(requests) == {} ==> requests == []
  {
    forall r | r in requests ensures r.m.group in Asked(requests) {
    }
    if requests != [] {
      assert requests[0] in requests;
    }
  }

  lemma {:induction false} TargetParts(groups: map<GroupId, string>, before: set<GroupId>, names: seq<string>)
    requires before <= groups.Keys
    ensures var desired := Desired(names);
            var target := Target(groups, before, desired);
            && before - target == set g | g in before && Undesired(groups, g, desired)
            && target - before == Missing(groups, before, desired)
            && target == before * target + Missing(groups, before, desired)
            && NonTak(groups, target) == NonTak(groups, before)
  {
    DesiredAreTak(names);
  }

  /** Where the user is after removals and additions that stay within the difference. */
  lemma {:induction false} Arrives(before: set<GroupId>, target: set<GroupId>, user: string,
                                   removed: seq<Request>, added: seq<Request>)
    requires Uniform(removed, user, true) && Asked(removed) <= before - target
    requires Uniform(added, user, false) && Asked(added) <= target - before
    ensures var now, sent := before - Applied(removed) + Applied(added), removed + added;
            && Moves(sent, user, before, target) && (before == target ==> sent == [])
            && before * target <= now <= before + target
            && (AllApplied(sent) && Asked(removed) == before - target && Asked(added) == target - before ==>
                  now == target)
  {
    assert forall r :: r in removed + added <==> r in removed || r in added;
    AppliedIsAsked(removed);
    AppliedIsAsked(added);
  }

  lemma {:induction false} NonTakBetween(groups: map<GroupId, string>, before: set<GroupId>, now: set<GroupId>,
                                         target: set<GroupId>)
    requires before * target <= now <= before + target && NonTak(groups, target) == NonTak(groups, before)
    ensures NonTak(groups, now) == NonTak(groups, before)
  {
    forall g | g in groups && !(TAK <= groups[g]) ensures g in before <==> g in target {
      assert g in NonTak(groups, before) <==> g in NonTak(groups, target);
    }
  }

  /**
    What a replacement does. Every request moves towards the target, so no group is both
    removed and added; non-tak_ groups stay, and a user already there causes no request. The
    user is there if no request was reported failed and all were applied.
  */
  predicate Replacement(groups: map<GroupId, string>, before: set<GroupId>, names: seq<string>, user: string,
                        sent: seq<Request>, now: set<GroupId>)
  {
    var target := Target(groups, before, Desired(names));
    && Moves(sent, user, before, target) && (before == target ==> sent == [])
    && before * target <= now <= before + target && now <= groups.Keys
    && NonTak(groups, now) == NonTak(groups, before)
    && (AllReported(sent) && AllApplied(sent) ==> now == target)
  }

  lemma {:induction false} Replaced(groups: map<GroupId, string>, before: set<GroupId>, names: seq<string>,
                                    user: string, removed: seq<Request>, added: seq<Request>)
    requires before <= groups.Keys && Uniform(removed, user, true) && Uniform(added, user, false)
    requires var undesired := set g | g in before && Undesired(groups, g, Desired(names));
             Asked(removed) <= undesired && (AllReported(removed) ==> Asked(removed) == undesired)
    requires var missing := Missing(groups, before, Desired(names));
             Asked(added) <= missing && (AllReported(removed) && AllReported(added) ==> Asked(added) == missing)
    ensures Replacement(groups, before, names, user, removed + added, before - Applied(removed) + Applied(added))
  {
    var target := Target(groups, before, Desired(names));
    TargetParts(groups, before, names);
    Arrives(before, target, user, removed, added);
    NonTakBetween(groups, before, before - Applied(removed) + Applied(added), target);
    BothReported(removed, added);
  }

  lemma {:induction false} BothReported(a: seq<Request>, b: seq<Request>)
    ensures AllReported(a + b) <==> AllReported(a) && AllReported(b)
  {
    RequestsJoin(a, b);
  }

  class GroupDirectory {
    const groups: map<GroupId, string>
    var members: map<string, set<GroupId>>
    var requests: seq<Request>

    ghost predicate Valid()
      reads this
    {
      UniqueNames(groups) && forall user :: user in members ==> members[user] <= groups.Keys
    }

    constructor (groups: map<GroupId, string>, members: map<string, set<GroupId>>)
      requires UniqueNames(groups) && forall user :: user in members ==> members[user] <= groups.Keys
      ensures Valid() && this.groups == groups && this.members == members && requests == []
    {
      this.groups, this.members, requests := groups, members, [];
    }

    /** One request to LLDAP; `answer` says how the n-th one goes. */
    method Send(user: string, m: Mutation, answer: nat -> Write) returns (ok: bool, ghost r: Request)
      requires user in members
      modifies this
      ensures r == Request(user, m, answer(|old(requests)|)) && requests == old(requests) + [r]
      ensures ok <==> r.write.reported
      ensures var now := if !r.write.applied then old(members)[user]
                         else if m.Remove? then old(members)[user] - {m.group} else old(members)[user] + {m.group};
              members == old(members)[user := now]
    {
      var write := answer(|requests|);
      r := Request(user, m, write);
      requests := requests + [Request(user, m, write)];
      if write.applied {
        members := members[user := if m.Remove? then members[user] - {m.group} else members[user] + {m.group}];
      }
      ok := write.reported;
    }

    /** Leaves the groups nobody wants the user in, up to the first request reported failed. */
    method RemoveUndesired(user: string, desired: set<string>, answer: nat -> Write)
      returns (ok: bool, ghost sent: seq<Request>)
      requires user in members && members[user] <= groups.Keys
      modifies this
      ensures members == old(members)[user := old(members)[user] - Applied(sent)]
      ensures Uniform(sent, user, true) && (ok <==> AllReported(sent)) && requests == old(requests) + sent
      ensures var undesired := set g | g in old(members)[user] && Undesired(groups, g, desired);
              Asked(sent) <= undesired && (ok ==> Asked(sent) == undesired)
    {
      sent := [];
      ghost var was, before := members, members[user];
      var left := members[user];
      ghost var seen: set<GroupId> := {};
      ghost var now := before;
      while left != {}
        invariant seen + left == before && seen !! left
        invariant user in members && members == was[user := now] && now == before - Applied(sent)
        invariant Uniform(sent, user, true) && AllReported(sent) && requests == old(requests) + sent
        invariant Asked(sent) == set g | g in seen && Undesired(groups, g, desired)
      {
        var g :| g in left;
        if Undesired(groups, g, desired) {
          ghost var r;
          ok, r := Send(user, Remove(g), answer);
          RequestsStep(sent, r);
          sent, now := sent + [r], members[user];
          assert now == before - Applied(sent);
          if !ok {
            return;
          }
        }
        left, seen := left - {g}, seen + {g};
      }
      ok := true;
    }

    /** The group of that name, unless there is none or the user is in it. */
    method FindMissing(name: string, current: set<GroupId>, ghost names: set<string>) returns (found: Option<GroupId>)
      requires UniqueNames(groups)
      ensures Missing(groups, current, names + {name})
                == Missing(groups, current, names) + if found.Some? then {found.value} else {}
    {
      if exists g :: g in groups && groups[g] == name && g !in current {
        var g :| g in groups && groups[g] == name && g !in current;
        found := Some(g);
      } else {
        found := None;
      }
      MissingStep(groups, current, names, name, found);
    }

    /** Joins the desired groups that exist, up to the first request reported failed. */
    method AddDesired(user: string, desired: set<string>, current: set<GroupId>, answer: nat -> Write)
      returns (ok: bool, ghost sent: seq<Request>)
      requires UniqueNames(groups) && user in members
      modifies this
      ensures members == old(members)[user := old(members)[user] + Applied(sent)]
      ensures Uniform(sent, user, false) && (ok <==> AllReported(sent)) && requests == old(requests) + sent
      ensures var missing := Missing(groups, current, desired);
              Asked(sent) <= missing && (ok ==> Asked(sent) == missing)
    {
      sent := [];
      ghost var was, before := members, members[user];
      var left := desired;
      ghost var seen: set<string> := {};
      ghost var now := before;
      while left != {}
        invariant seen + left == desired
        invariant user in members && members == was[user := now] && now == before + Applied(sent)
        invariant Uniform(sent, user, false) && AllReported(sent) && requests == old(requests) + sent
        invariant Asked(sent) == Missing(groups, current, seen)
      {
        var name :| name in left;
        ghost var made;
        ok, made := AddNamed(user, name, current, answer, seen);
        RequestsJoin(sent, made);
        sent, now := sent + made, members[user];
        assert now == before + Applied(sent);
        if !ok {
          assert seen + {name} <= desired;
          MissingGrows(groups, current, seen + {name}, desired);
          return;
        }
        left, seen := left - {name}, seen + {name};
      }
      ok := true;
    }

    /** Joins the group of that name, if there is one and the user is not in it. */
    method AddNamed(user: string, name: string, current: set<GroupId>, answer: nat -> Write, ghost names: set<string>)
      returns (ok: bool, ghost made: seq<Request>)
      requires UniqueNames(groups) && user in members
      modifies this
      ensures members == old(members)[user := old(members)[user] + Applied(made)]
      ensures Uniform(made, user, false) && (ok <==> AllReported(made)) && requests == old(requests) + made
      ensures Missing(groups, current, names + {name}) == Missing(groups, current, names) + Asked(made)
    {
      made := [];
      var found := FindMissing(name, current, names);
      if found.None? {
        assert members[user] + Applied(made) == members[user];
        return true, made;
      }
      ghost var r;
      ok, r := Send(user, Add(found.value), answer);
      RequestsStep(made, r);
      made := made + [r];
      assert members[user] == old(members)[user] + Applied(made);
    }

    /** Replaces the user's tak_ groups, stopping at the first request reported failed. */
    method SetUserGroups(user: string, names: seq<string>, answer: nat -> Write)
      returns (ok: bool, ghost sent: seq<Request>)
      requires Valid() && user in members
      modifies this
      ensures Valid() && user in members && members == old(members)[user := members[user]]
      ensures Replacement(groups, old(members)[user], names, user, sent, members[user])
      ensures requests == old(requests) + sent && (ok <==> AllReported(sent))
      ensures ok && AllApplied(sent) ==>
                forall g :: g in members[user] <==> Belongs(groups, old(members)[user], names, g)
    {
      ghost var before := members[user];
      forall g ensures g in Target(groups, before, Desired(names)) <==> Belongs(groups, before, names, g) {
        BelongsIffTarget(groups, members[user], names, g);
      }
      var desired, current := Desired(names), members[user];
      ghost var removed, added := [], [];
      ok, removed := RemoveUndesired(user, desired, answer);
      if ok {
        ok, added := AddDesired(user, desired, current, answer);
      }
      sent := removed + added;
      Replaced(groups, current, names, user, removed, added);
      BothReported(removed, added);
      assert members[user] == current - Applied(removed) + Applied(added);
    }
  }
}
