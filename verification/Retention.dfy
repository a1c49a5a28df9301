/**
  Keeping the newest archives. The kept set is defined by rank, with no list and no
  enumeration order in sight; the directory's methods reach it by globbing, sorting,
  slicing and unlinking one file at a time.
*/
module Retention {
  import opened Seqs
  import opened Stamps

  // ---------------------------------------------------------------- the newest by rank

  function NewerThan(a: set<string>, p: string): set<string> {
    set q | q in a && Newer(q, p)
  }

  /** The archives with fewer than `keep` newer ones. */
  function Kept(a: set<string>, keep: nat): set<string> {
    set p | p in a && |NewerThan(a, p)| < keep
  }

  predicate Ranked(s: seq<string>) {
    forall i, j :: 0 <= i < j < |s| ==> Newer(s[i], s[j])
  }

  ghost predicate Lists(s: seq<string>, a: set<string>) {
    forall p :: p in s <==> p in a
  }

  function Members(s: seq<string>): set<string> {
    set p | p in s
  }

  lemma {:induction false} MembersStep(s: seq<string>, p: string)
    ensures Members(s + [p]) == Members(s) + {p}
  {
  }

  lemma {:induction false} SubsetIsSmaller(a: set<string>, b: set<string>)
    requires a <= b
    ensures |a| <= |b|
  {
    assert b == a + (b - a);
  }

  lemma {:induction false} RankedIsDistinct(s: seq<string>)
    requires Ranked(s)
    ensures Distinct(s) && |Members(s)| == |s|
  {
    if s != [] {
      var before, last := Init(s), Last(s);
      assert s == before + [last];
      RankedIsDistinct(before);
      MembersStep(before, last);
      NewerIsStrictOrder(last, last);
      assert last !in before;
    }
  }

  lemma {:induction false} RankIsIndex(s: seq<string>, a: set<string>, i: nat)
    requires Ranked(s) && Lists(s, a) && i < |s|
    ensures |NewerThan(a, s[i])| == i
  {
    forall p | p in a ensures Newer(p, s[i]) <==> p in s[..i] {
      var j :| 0 <= j < |s| && s[j] == p;
      NewerIsStrictOrder(p, s[i]);
      if p in s[..i] {
        var k :| 0 <= k < i && s[k] == p;
      }
    }
    assert NewerThan(a, s[i]) == Members(s[..i]);
    RankedIsDistinct(s[..i]);
  }

  /** The first `keep` of a newest-first listing are the kept set. */
  lemma {:induction false} SliceIsKept(s: seq<string>, a: set<string>, keep: nat)
    requires Ranked(s) && Lists(s, a)
    ensures var n := if keep < |s| then keep else |s|;
            Kept(a, keep) == Members(s[..n]) && |Kept(a, keep)| == n && |a| == |s|
  {
    var n := if keep < |s| then keep else |s|;
    forall p | p in a ensures p in Kept(a, keep) <==> p in s[..n] {
      var i :| 0 <= i < |s| && s[i] == p;
      RankIsIndex(s, a, i);
      if p in s[..n] {
        var j :| 0 <= j < n && s[j] == p;
        RankIsIndex(s, a, j);
      }
    }
    assert Kept(a, keep) == Members(s[..n]) && a == Members(s);
    RankedIsDistinct(s[..n]);
    RankedIsDistinct(s);
  }

  lemma {:induction false} NewestOf(a: set<string>) returns (m: string)
    requires a != {}
    ensures m in a && forall q :: q in a && q != m ==> Newer(m, q)
  {
    var p :| p in a;
    var rest := a - {p};
    assert forall q :: q in a ==> q == p || q in rest;
    m := p;
    if rest != {} {
      var n := NewestOf(rest);
      NewerIsStrictOrder(p, n);
      if Newer(n, p) {
        m := n;
      } else {
        forall q | q in rest ensures Newer(p, q) {
          if q != n {
            NewerIsTransitive(p, n, q);
          }
        }
      }
    }
  }

  lemma {:induction false} RankedListing(a: set<string>) returns (s: seq<string>)
    ensures Ranked(s) && Lists(s, a)
  {
    s := [];
    if a != {} {
      var m := NewestOf(a);
      s := RankedListing(a - {m});
      assert forall p :: p in [m] + s <==> p == m || p in s;
      s := [m] + s;
    }
  }

  /** Exactly the newest min(n, keep) remain. */
  lemma {:induction false} KeptCount(a: set<string>, keep: nat)
    ensures |Kept(a, keep)| == if keep < |a| then keep else |a|
    ensures forall p, q :: p in Kept(a, keep) && q in a - Kept(a, keep) ==> Newer(p, q)
  {
    var s := RankedListing(a);
    SliceIsKept(s, a, keep);
    forall p, q | p in Kept(a, keep) && q in a - Kept(a, keep) ensures Newer(p, q) {
      NewerThanShrinks(a, p, q);
    }
  }

  lemma {:induction false} NewerThanShrinks(a: set<string>, p: string, q: string)
    requires p in a && q in a && |NewerThan(a, p)| < |NewerThan(a, q)|
    ensures Newer(p, q)
  {
    NewerIsStrictOrder(p, q);
    if Newer(q, p) {
      forall r | r in NewerThan(a, q) ensures r in NewerThan(a, p) {
        NewerIsTransitive(r, q, p);
      }
      SubsetIsSmaller(NewerThan(a, q), NewerThan(a, p));
    }
  }

  // ---------------------------------------------------------------- pruning more than once

  /** Any part of the archives that still holds the newest `keep` prunes to the same set. */
  lemma {:induction false} SqueezedKept(all: set<string>, some: set<string>, keep: nat)
    requires Kept(all, keep) <= some <= all
    ensures Kept(some, keep) == Kept(all, keep)
  {
    KeptGrows(all, some, keep, keep);
    forall p | p in Kept(some, keep) ensures p in Kept(all, keep) {
      if p !in Kept(all, keep) {
        KeptCount(all, keep);
        SubsetIsSmaller(NewerThan(all, p), all);
        SubsetIsSmaller(Kept(all, keep), NewerThan(some, p));
        assert false;
      }
    }
  }

  /** Fewer archives, or a larger keep, drop nothing that would have been kept. */
  lemma {:induction false} KeptGrows(all: set<string>, some: set<string>, keep: nat, more: nat)
    requires Kept(all, keep) <= some <= all && keep <= more
    ensures Kept(all, keep) <= Kept(some, more)
  {
    forall p | p in Kept(all, keep) ensures p in Kept(some, more) {
      SubsetIsSmaller(NewerThan(some, p), NewerThan(all, p));
    }
  }

  /** Archives that come later only push others out. */
  lemma {:induction false} KeptOfMore(a: set<string>, b: set<string>, keep: nat)
    ensures Kept(a + b, keep) <= Kept(a, keep) + b
  {
    forall p | p in Kept(a + b, keep) && p in a ensures p in Kept(a, keep) {
      SubsetIsSmaller(NewerThan(a, p), NewerThan(a + b, p));
    }
  }

  /** Pruning early to no less loses nothing: a later prune comes out as if it had not happened. */
  lemma {:induction false} EarlierPruneIsAbsorbed(a: set<string>, b: set<string>, early: nat, keep: nat)
    requires keep <= early
    ensures Kept(Kept(a, early) + b, keep) == Kept(a + b, keep)
  {
    KeptOfMore(a, b, keep);
    assert Kept(a, keep) <= Kept(a, early);
    SqueezedKept(a + b, Kept(a, early) + b, keep);
  }

  /** With a clock that moves forward, the archive just written is among them. */
  lemma {:induction false} NewestSurvives(a: set<string>, p: string, keep: nat)
    requires keep >= 1 && forall q :: q in a && q != p ==> TakenAt(q) < TakenAt(p)
    ensures p in Kept(a + {p}, keep)
  {
    NewerIsStrictOrder(p, p);
    assert NewerThan(a + {p}, p) == {};
  }

  lemma {:induction false} SecondPruneDeletesNothing(a: set<string>, keep: nat)
    ensures Kept(Kept(a, keep), keep) == Kept(a, keep)
  {
    EarlierPruneIsAbsorbed(a, {}, keep, keep);
    assert Kept(a, keep) + {} == Kept(a, keep) && a + {} == a;
  }

  // ---------------------------------------------------------------- the directory

  predicate IsArchive(name: string) {
    ParseName(name).Some?
  }

  function Archives(names: set<string>): set<string> {
    set p | p in names && IsArchive(p)
  }

  function Doomed(names: set<string>, keep: nat): set<string> {
    Archives(names) - Kept(Archives(names), keep)
  }

  function Sidecar(archive: string): string {
    archive + ".sha256"
  }

  predicate Stale(name: string, mtime: int, now: int, maxAge: int) {
    Globbed(name, ".partial") && now - mtime > maxAge
  }

  function Reaped(files: map<string, int>, now: int, maxAge: int): map<string, int> {
    map p | p in files && !Stale(p, files[p], now, maxAge) :: files[p]
  }

  /** Unlinking an archive, or then its sidecar, raises: `stuck` are the names that cannot be removed. */
  predicate Blocked(files: map<string, int>, d: string, stuck: set<string>) {
    d in stuck || (Sidecar(d) in files && Sidecar(d) in stuck)
  }

  /** The doomed archives reached before the first blocked one, newest first. */
  ghost function Cleared(files: map<string, int>, doomed: set<string>, stuck: set<string>): set<string> {
    set d | d in doomed && forall b :: b in doomed && Blocked(files, b, stuck) ==> Newer(d, b)
  }

  /** Those that go: the cleared ones, and the first blocked one if only its sidecar is stuck. */
  ghost function Removed(files: map<string, int>, doomed: set<string>, stuck: set<string>): set<string> {
    set d | d in doomed && d !in stuck && forall b :: b in doomed && b != d && Blocked(files, b, stuck) ==> Newer(d, b)
  }

  ghost function Without(files: map<string, int>, archives: set<string>, owners: set<string>): map<string, int> {
    map p | p in files && p !in archives && !IsSidecarOf(p, owners) :: files[p]
  }

  /**
    What one prune leaves: stale partials and doomed archives with their sidecars go, up to
    the first that is stuck.
  */
  ghost function AfterPrune(files: map<string, int>, keep: nat, now: int, maxAge: int, stuck: set<string>)
    : map<string, int>
  {
    var reaped, doomed := Reaped(files, now, maxAge), Doomed(files.Keys, keep);
    Without(reaped, Removed(reaped, doomed, stuck), Cleared(reaped, doomed, stuck))
  }

  /** What gets in a prune's way: names that cannot be removed, and names whose stat fails. */
  datatype Trouble = Trouble(stuck: set<string>, unreadable: set<string>)

  predicate ReapBlocked(p: string, mtime: int, now: int, maxAge: int, trouble: Trouble) {
    Globbed(p, ".partial") && (p in trouble.unreadable || (now - mtime > maxAge && p in trouble.stuck))
  }

  predicate ReapRaises(files: map<string, int>, now: int, maxAge: int, trouble: Trouble) {
    exists p :: p in files && ReapBlocked(p, files[p], now, maxAge, trouble)
  }

  /** Reaping that raises has removed some of the stale partials, which ones depends on the listing. */
  predicate PartlyReaped(before: map<string, int>, after: map<string, int>, now: int, maxAge: int, trouble: Trouble) {
    && (forall p :: p in after ==> p in before && after[p] == before[p])
    && forall p :: p in before && p !in after ==>
         Stale(p, before[p], now, maxAge) && !ReapBlocked(p, before[p], now, maxAge, trouble)
  }

  predicate PruneRaises(files: map<string, int>, keep: nat, now: int, maxAge: int, trouble: Trouble) {
    || ReapRaises(files, now, maxAge, trouble)
    || exists d :: d in Doomed(files.Keys, keep) && Blocked(Reaped(files, now, maxAge), d, trouble.stuck)
  }

  ghost predicate PruneStep(before: map<string, int>, after: map<string, int>, keep: nat, now: int, maxAge: int,
                            trouble: Trouble)
  {
    if ReapRaises(before, now, maxAge, trouble) then PartlyReaped(before, after, now, maxAge, trouble)
    else after == AfterPrune(before, keep, now, maxAge, trouble.stuck)
  }

  ghost predicate IsSidecarOf(p: string, archives: set<string>) {
    exists d :: d in archives && p == Sidecar(d)
  }

  // ---------------------------------------------------------------- a prune file by file

  lemma {:induction false} GlobbedIff(name: string, suffix: string)
    ensures Globbed(name, suffix) <==> exists middle :: name == "fasttak-backup-" + middle + suffix
  {
    if Globbed(name, suffix) {
      assert name == "fasttak-backup-" + name[15..|name| - |suffix|] + suffix;
    }
    if middle :| name == "fasttak-backup-" + middle + suffix {
      assert name[|name| - |suffix|..] == suffix;
    }
  }

  /** An unfinished archive, of the runner's naming. */
  ghost predicate IsPartial(p: string) {
    exists middle :: p == "fasttak-backup-" + middle + ".partial"
  }

  /** One of the archives with at least `keep` newer ones. */
  predicate IsSurplus(files: map<string, int>, p: string, keep: nat) {
    p in files && IsArchive(p) && |set q | q in files && IsArchive(q) && Newer(q, p)| >= keep
  }

  ghost predicate IsSurplusSidecar(files: map<string, int>, p: string, keep: nat) {
    exists d :: p == d + ".sha256" && IsSurplus(files, d, keep)
  }

  lemma {:induction false} DoomedIff(files: map<string, int>, keep: nat, p: string)
    ensures p in Doomed(files.Keys, keep) <==> IsSurplus(files, p, keep)
  {
    assert NewerThan(Archives(files.Keys), p) == set q | q in files && IsArchive(q) && Newer(q, p);
  }

  /** A prune raises exactly over an unreadable partial, or an old partial, surplus archive or sidecar that is stuck. */
  lemma {:induction false} PruneRaisesIff(files: map<string, int>, keep: nat, now: int, maxAge: int, trouble: Trouble)
    ensures PruneRaises(files, keep, now, maxAge, trouble) <==>
              exists p :: p in files &&
                (|| (IsPartial(p) && p in trouble.unreadable)
                 || (IsPartial(p) && now - files[p] > maxAge && p in trouble.stuck)
                 || (p in trouble.stuck && (IsSurplus(files, p, keep) || IsSurplusSidecar(files, p, keep))))
  {
    forall p ensures p in Doomed(files.Keys, keep) <==> IsSurplus(files, p, keep) {
      DoomedIff(files, keep, p);
    }
    forall p ensures Globbed(p, ".partial") <==> IsPartial(p) {
      GlobbedIff(p, ".partial");
    }
    forall d ensures !Globbed(Sidecar(d), ".partial") {
      SidecarIsNotPartial(d);
    }
  }

  lemma {:induction false} SidecarIsNotPartial(d: string)
    ensures !EndsWith(Sidecar(d), ".partial")
  {
    assert EndsWith(Sidecar(d), ".sha256");
    LastCharacter(Sidecar(d), ".sha256");
    if EndsWith(Sidecar(d), ".partial") {
      LastCharacter(Sidecar(d), ".partial");
    }
  }

  /** However it ends, a prune adds no file and touches no mtime. */
  lemma {:induction false} PruneOnlyRemoves(before: map<string, int>, after: map<string, int>, keep: nat, now: int,
                                            maxAge: int, trouble: Trouble)
    requires PruneStep(before, after, keep, now, maxAge, trouble)
    ensures forall p :: p in after ==> p in before && after[p] == before[p]
  {
  }

  /** And one that does not raise removes just the old partials, the surplus archives and their sidecars. */
  lemma {:induction false} QuietPruneRemoves(before: map<string, int>, after: map<string, int>, keep: nat, now: int,
                                             maxAge: int, trouble: Trouble, p: string)
    requires PruneStep(before, after, keep, now, maxAge, trouble)
    requires !PruneRaises(before, keep, now, maxAge, trouble) && p in before
    ensures p !in after <==> || (IsPartial(p) && now - before[p] > maxAge)
                             || IsSurplus(before, p, keep) || IsSurplusSidecar(before, p, keep)
  {
    var reaped, doomed := Reaped(before, now, maxAge), Doomed(before.Keys, keep);
    GlobbedIff(p, ".partial");
    DoomedIff(before, keep, p);
    UnblockedAllGo(reaped, doomed, trouble.stuck);
    forall d ensures d in doomed <==> IsSurplus(before, d, keep) {
      DoomedIff(before, keep, d);
    }
  }

  lemma {:induction false} UnblockedAllGo(files: map<string, int>, doomed: set<string>, stuck: set<string>)
    ensures Removed(files, doomed, stuck) <= doomed
    ensures (forall d :: d in doomed ==> !Blocked(files, d, stuck)) ==>
              Removed(files, doomed, stuck) == doomed && Cleared(files, doomed, stuck) == doomed
  {
  }

  lemma {:induction false} SuffixesDiffer(name: string)
    ensures IsArchive(name) ==> !EndsWith(name, ".partial")
    ensures !IsArchive(Sidecar(name)) && !IsArchive(name + ".partial")
  {
    assert EndsWith(name + ".partial", ".partial") && EndsWith(Sidecar(name), ".sha256");
    if EndsWith(name, ".partial") {
      NotBothEndings(name, ".partial");
    }
    NotBothEndings(name + ".partial", ".partial");
    NotBothEndings(Sidecar(name), ".sha256");
  }

  lemma {:induction false} NotBothEndings(name: string, suffix: string)
    requires EndsWith(name, suffix) && suffix != "" && Last(suffix) != 'e'
    ensures !IsArchive(name)
  {
    LastCharacter(name, suffix);
    if IsArchive(name) {
      LastCharacter(name, SUFFIX);
    }
  }

  lemma {:induction false} LastCharacter(name: string, suffix: string)
    requires EndsWith(name, suffix) && suffix != ""
    ensures name != "" && Last(name) == Last(suffix)
  {
    assert Last(name[|name| - |suffix|..]) == Last(name);
  }

  lemma {:induction false} StaleFilesAreNotArchives(files: map<string, int>, now: int, maxAge: int)
    ensures Archives(Reaped(files, now, maxAge).Keys) == Archives(files.Keys)
    ensures forall p :: p in files && IsArchive(p) ==> !Stale(p, files[p], now, maxAge)
  {
    forall p | p in files && IsArchive(p) ensures !Stale(p, files[p], now, maxAge) {
      SuffixesDiffer(p);
    }
  }

  lemma {:induction false} SliceIsDoomed(stamped: seq<string>, names: set<string>, keep: nat)
    returns (toDelete: seq<string>)
    requires Ranked(stamped) && Lists(stamped, Archives(names))
    ensures toDelete == if keep < |stamped| then stamped[keep..] else []
    ensures Ranked(toDelete) && Lists(toDelete, Doomed(names, keep))
  {
    toDelete := if keep < |stamped| then stamped[keep..] else [];
    var a := Archives(names);
    forall i | 0 <= i < |stamped| ensures stamped[i] in Doomed(names, keep) <==> keep <= i {
      RankIsIndex(stamped, a, i);
    }
    forall p | p in Doomed(names, keep) ensures p in toDelete {
      var i :| 0 <= i < |stamped| && stamped[i] == p;
      assert toDelete[i - keep] == p;
    }
  }

  lemma {:induction false} UnlinkStep(files: map<string, int>, toDelete: seq<string>, k: nat)
    requires Deletable(files, toDelete) && k < |toDelete|
    ensures var gone, p := Members(toDelete[..k]), toDelete[k];
            var before, gone' := Without(files, gone, gone), Members(toDelete[..k + 1]);
            && p in before && (Sidecar(p) in before <==> Sidecar(p) in files)
            && Without(files, gone', gone') == before - {p, Sidecar(p)}
  {
    var gone, p := Members(toDelete[..k]), toDelete[k];
    assert Members(toDelete[..k + 1]) == gone + {p};
    assert p !in toDelete[..k];
    forall i | 0 <= i < k ensures Sidecar(p) != Sidecar(toDelete[i]) {
      SidecarsDiffer(p, toDelete[i]);
    }
  }

  /** Distinct files, none of them the sidecar of another. */
  predicate Deletable(files: map<string, int>, s: seq<string>) {
    && Distinct(s) && (forall i :: 0 <= i < |s| ==> s[i] in files)
    && forall i, j :: 0 <= i < |s| && 0 <= j < |s| ==> s[i] != Sidecar(s[j])
  }

  lemma {:induction false} ArchivesAreDeletable(files: map<string, int>, s: seq<string>)
    requires Ranked(s) && forall p :: p in s ==> p in files && IsArchive(p)
    ensures Deletable(files, s)
  {
    RankedIsDistinct(s);
    forall i, j | 0 <= i < |s| && 0 <= j < |s| ensures s[i] != Sidecar(s[j]) {
      SuffixesDiffer(s[j]);
    }
  }

  lemma {:induction false} SidecarsDiffer(p: string, d: string)
    ensures Sidecar(p) == Sidecar(d) ==> p == d
  {
    assert Sidecar(p)[..|Sidecar(p)| - 7] == p && Sidecar(d)[..|Sidecar(d)| - 7] == d;
  }

  /** Where a newest-first pass stops, in terms of sets: at index k, or not at all. */
  lemma {:induction false} StoppedAt(files: map<string, int>, s: seq<string>, k: nat, stuck: set<string>)
    requires Ranked(s) && k <= |s|
    requires forall i :: 0 <= i < k ==> !Blocked(files, s[i], stuck)
    requires k < |s| ==> Blocked(files, s[k], stuck)
    ensures Cleared(files, Members(s), stuck) == Members(s[..k])
    ensures Removed(files, Members(s), stuck) == Members(s[..k]) + if k < |s| then {s[k]} - stuck else {}
  {
    forall i | 0 <= i < |s|
      ensures s[i] in Cleared(files, Members(s), stuck) <==> i < k
      ensures s[i] in Removed(files, Members(s), stuck) <==> i < k || (i == k && s[i] !in stuck)
    {
      if k < |s| {
        NewerIsStrictOrder(s[i], s[k]);
      }
      forall b | b in Members(s) && Blocked(files, b, stuck) && i <= k ensures b == s[i] || Newer(s[i], b) {
        var j :| 0 <= j < |s| && s[j] == b;
      }
    }
  }

  /**
    A prune that stops partway has cleared the first k doomed archives, newest first, and
    removed these and at most the next.
  */
  lemma {:induction false} PartialPruneIsPrefix(files: map<string, int>, doomed: set<string>, stuck: set<string>)
    returns (k: nat)
    ensures Cleared(files, doomed, stuck) == Kept(doomed, k)
    ensures Kept(doomed, k) <= Removed(files, doomed, stuck) <= Kept(doomed, k + 1)
    ensures k <= |doomed| && (k == |doomed| <==> forall d :: d in doomed ==> !Blocked(files, d, stuck))
  {
    var s := RankedListing(doomed);
    k := FirstBlocked(files, s, stuck);
    assert doomed == Members(s);
    StoppedAt(files, s, k, stuck);
    SliceIsKept(s, doomed, |s|);
    if k < |s| {
      RankPrefixes(s, doomed, k);
      assert s[k] in doomed;
    } else {
      SliceIsKept(s, doomed, k + 1);
      assert s[..k] == s;
    }
  }

  lemma {:induction false} RankPrefixes(s: seq<string>, a: set<string>, k: nat)
    requires Ranked(s) && Lists(s, a) && k < |s|
    ensures Kept(a, k) == Members(s[..k]) && Kept(a, k + 1) == Members(s[..k]) + {s[k]}
  {
    SliceIsKept(s, a, k);
    SliceIsKept(s, a, k + 1);
    NextPrefix(s, k);
  }

  lemma {:induction false} NextPrefix(s: seq<string>, k: nat)
    requires k < |s|
    ensures Members(s[..k + 1]) == Members(s[..k]) + {s[k]}
  {
    assert s[..k + 1] == s[..k] + [s[k]];
    MembersStep(s[..k], s[k]);
  }

  lemma {:induction false} FirstBlocked(files: map<string, int>, s: seq<string>, stuck: set<string>) returns (k: nat)
    ensures k <= |s| && forall i :: 0 <= i < k ==> !Blocked(files, s[i], stuck)
    ensures k < |s| ==> Blocked(files, s[k], stuck)
  {
    k := 0;
    while k < |s| && !Blocked(files, s[k], stuck)
      invariant k <= |s| && forall i :: 0 <= i < k ==> !Blocked(files, s[i], stuck)
    {
      k := k + 1;
    }
  }

  /** What the directory's loop leaves when it stops at index k is what the sets say. */
  lemma {:induction false} StoppedFiles(files: map<string, int>, s: seq<string>, k: nat, stuck: set<string>)
    requires Ranked(s) && k <= |s| && forall p :: p in s ==> p in files && IsArchive(p)
    requires forall i :: 0 <= i < k ==> !Blocked(files, s[i], stuck)
    requires k < |s| ==> Blocked(files, s[k], stuck)
    ensures var gone := Members(s[..k]);
            Without(files, Removed(files, Members(s), stuck), Cleared(files, Members(s), stuck))
              == Without(files, gone, gone) - if k < |s| then {s[k]} - stuck else {}
  {
    RankedIsDistinct(s);
    StoppedAt(files, s, k, stuck);
  }

  /** Insertion into a newest-first list, and the list sorted that way. */
  function Insert(p: string, s: seq<string>): seq<string> {
    if s == [] || Newer(p, s[0]) then [p] + s else [s[0]] + Insert(p, s[1..])
  }

  function SortNewestFirst(s: seq<string>): seq<string> {
    if s == [] then [] else Insert(s[0], SortNewestFirst(s[1..]))
  }

  lemma {:induction false} InsertRanks(p: string, s: seq<string>)
    requires Ranked(s) && p !in s
    ensures Ranked(Insert(p, s)) && forall q :: q in Insert(p, s) <==> q == p || q in s
  {
    if s == [] {
    } else if Newer(p, s[0]) {
      forall i | 0 < i < |s| ensures Newer(p, s[i]) {
        NewerIsTransitive(p, s[0], s[i]);
      }
    } else {
      NewerIsStrictOrder(p, s[0]);
      InsertRanks(p, s[1..]);
      var rest := Insert(p, s[1..]);
      forall i | 0 <= i < |rest| ensures Newer(s[0], rest[i]) {
        assert rest[i] == p || rest[i] in s[1..];
      }
    }
  }

  predicate Distinct(s: seq<string>) {
    forall i, j :: 0 <= i < j < |s| ==> s[i] != s[j]
  }

  lemma {:induction false} SortRanks(s: seq<string>)
    requires Distinct(s)
    ensures Ranked(SortNewestFirst(s)) && forall p :: p in SortNewestFirst(s) <==> p in s
  {
    if s != [] {
      SortRanks(s[1..]);
      InsertRanks(s[0], SortNewestFirst(s[1..]));
    }
  }

  class BackupDir {
    var files: map<string, int>  // name to mtime

    constructor ()
      ensures files == map[]
    {
      files := map[];
    }

    /** The directory in whatever order the file system lists it. */
    method Enumerate() returns (listing: seq<string>)
      ensures Distinct(listing) && Lists(listing, files.Keys)
    {
      listing := [];
      var left := files.Keys;
      while left != {}
        invariant left <= files.Keys && Distinct(listing)
        invariant forall p :: p in listing <==> p in files.Keys - left
      {
        var p :| p in left;
        assert p !in listing;
        listing, left := listing + [p], left - {p};
      }
    }

    /** The archives newest first; names that do not parse are left out. */
    method StampedBackups() returns (stamped: seq<string>)
      ensures Ranked(stamped) && Lists(stamped, Archives(files.Keys))
    {
      var listing := Enumerate();
      stamped := [];
      for i := 0 to |listing|
        invariant Distinct(stamped)
        invariant forall p :: p in stamped <==> p in listing[..i] && IsArchive(p)
      {
        if IsArchive(listing[i]) {
          stamped := stamped + [listing[i]];
        }
      }
      SortRanks(stamped);
      stamped := SortNewestFirst(stamped);
    }

    /** Removes the stale partials; one that cannot be examined or removed raises, wherever it is met. */
    method ReapPartials(now: int, maxAge: int, trouble: Trouble) returns (raised: bool)
      modifies this
      ensures raised <==> ReapRaises(old(files), now, maxAge, trouble)
      ensures !raised ==> files == Reaped(old(files), now, maxAge)
      ensures PartlyReaped(old(files), files, now, maxAge, trouble)
    {
      var listing := Enumerate();
      for i := 0 to |listing|
        invariant forall p :: p in files <==>
                    p in old(files) && !(p in listing[..i] && Stale(p, old(files)[p], now, maxAge))
        invariant forall p :: p in files ==> files[p] == old(files)[p]
        invariant forall p :: p in listing[..i] ==> !ReapBlocked(p, old(files)[p], now, maxAge, trouble)
      {
        var p := listing[i];
        assert listing[..i + 1] == listing[..i] + [p];
        if p in files && Globbed(p, ".partial") {
          if p in trouble.unreadable {
            return true;
          }
          if now - files[p] > maxAge {
            if p in trouble.stuck {
              return true;
            }
            files := files - {p};
          }
        }
      }
      return false;
    }

    /**
      Keeps the newest `keep` archives, in whatever order the directory lists them. The names
      deleted are lost when it raises, though the files are gone.
    */
    method Prune(keep: nat, now: int, maxAge: int, trouble: Trouble) returns (deleted: seq<string>, raised: bool)
      modifies this
      ensures raised <==> PruneRaises(old(files), keep, now, maxAge, trouble)
      ensures PruneStep(old(files), files, keep, now, maxAge, trouble)
      ensures !raised ==> Ranked(deleted) && Lists(deleted, Doomed(old(files).Keys, keep))
    {
      StaleFilesAreNotArchives(files, now, maxAge);
      raised := ReapPartials(now, maxAge, trouble);
      if raised {
        return [], true;
      }
      var stamped := StampedBackups();
      ghost var doomed := SliceIsDoomed(stamped, old(files).Keys, keep);
      var toDelete := if keep < |stamped| then stamped[keep..] else [];
      assert Members(toDelete) == Doomed(old(files).Keys, keep);
      ArchivesAreDeletable(files, toDelete);
      ghost var k;
      deleted, raised, k := UnlinkAll(toDelete, trouble.stuck);
      StoppedFiles(Reaped(old(files), now, maxAge), toDelete, k, trouble.stuck);
    }

    /** Removes an archive and its sidecar, either of which may be missing or stuck. */
    method Unlink(p: string, stuck: set<string>) returns (found: bool, raised: bool)
      modifies this
      ensures found <==> p in old(files) && p !in stuck
      ensures raised <==> (p in old(files) && p in stuck) || (Sidecar(p) in old(files) && Sidecar(p) in stuck)
      ensures files == old(files) - if raised then {p} - stuck else {p, Sidecar(p)}
    {
      if p in files && p in stuck {
        return false, true;
      }
      found := p in files;
      files := files - {p};
      if Sidecar(p) in files && Sidecar(p) in stuck {
        return found, true;
      }
      files := files - {Sidecar(p)};
      return found, false;
    }

    /**
      Unlinks each archive and its sidecar, one by one. If it raises, the first k are gone
      with their sidecars, the next at most without its own, and nothing else.
    */
    method UnlinkAll(toDelete: seq<string>, stuck: set<string>)
      returns (deleted: seq<string>, raised: bool, ghost k: nat)
      requires Deletable(files, toDelete)
      modifies this
      ensures k <= |toDelete| && (raised <==> k < |toDelete|)
      ensures forall i :: 0 <= i < k ==> !Blocked(old(files), toDelete[i], stuck)
      ensures raised ==> Blocked(old(files), toDelete[k], stuck)
      ensures !raised ==> deleted == toDelete
      ensures var gone := Members(toDelete[..k]);
              files == Without(old(files), gone, gone) - if raised then {toDelete[k]} - stuck else {}
    {
      deleted := [];
      ghost var was := files;
      for i := 0 to |toDelete|
        invariant deleted == toDelete[..i]
        invariant files == Without(was, Members(toDelete[..i]), Members(toDelete[..i]))
        invariant forall j :: 0 <= j < i ==> !Blocked(was, toDelete[j], stuck)
      {
        var p := toDelete[i];
        UnlinkStep(was, toDelete, i);
        var found;
        found, raised := Unlink(p, stuck);
        if raised {
          k := i;
          return;
        }
        if found {
          deleted := deleted + [p];
        }
      }
      assert toDelete[..|toDelete|] == toDelete;
      return deleted, false, |toDelete|;
    }
  }
}
