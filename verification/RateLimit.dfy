/**
  The failure-counting limiter as mathematics: one IP's slot as the code keeps it,
  beside a reference that forgets nothing and recomputes everything.

  Times are nanoseconds since Go's zero time.Time, so 0 is "never locked" and every
  clock reading is a nat. Neither window, lockout nor maxAttempts is assumed positive
  unless a lemma says so: NewRateLimiter takes whatever the environment gives it.
*/
module RateLimit {
  import opened Seqs

  datatype Config = Config(window: int, lockout: int, maxAttempts: int)

  predicate Sane(c: Config) {
    c.window > 0 && c.lockout > 0 && c.maxAttempts >= 1
  }

  // ---------------------------------------------------------------- one IP, as kept

  datatype Slot = Slot(failures: seq<nat>, lockoutUntil: int)

  const FRESH := Slot([], 0)

  /** The entries strictly later than the cutoff, in order. */
  function After(ts: seq<nat>, cutoff: int): seq<nat> {
    if ts == [] then []
    else After(Init(ts), cutoff) + if Last(ts) > cutoff then [Last(ts)] else []
  }

  function Record(c: Config, s: Slot, now: nat): Slot {
    if now < s.lockoutUntil then s
    else
      var kept := After(s.failures, now - c.window) + [now];
      Slot(kept, if |kept| >= c.maxAttempts then now + c.lockout else s.lockoutUntil)
  }

  /** The slot after the given failed attempts. */
  function SlotAfter(c: Config, attempts: seq<nat>): Slot {
    if attempts == [] then FRESH
    else Record(c, SlotAfter(c, Init(attempts)), Last(attempts))
  }

  // ---------------------------------------------------------------- the reference

  /** How many entries lie in the half-open interval (lo, hi]. */
  function CountIn(ts: seq<nat>, lo: int, hi: int): nat {
    if ts == [] then 0
    else CountIn(Init(ts), lo, hi) + if lo < Last(ts) <= hi then 1 else 0
  }

  /** Entry i of a counted history brought its window's count up to maxAttempts. */
  predicate Triggers(c: Config, h: seq<nat>, i: nat)
    requires i < |h|
  {
    CountIn(h[..i], h[i] - c.window, h[i]) + 1 >= c.maxAttempts
  }

  ghost predicate LockedAt(c: Config, h: seq<nat>, t: nat) {
    exists i {:trigger Triggers(c, h, i)} :: 0 <= i < |h| && Triggers(c, h, i) && h[i] <= t < h[i] + c.lockout
  }

  /** Every failed attempt that was not dropped by a lockout, kept forever. */
  ghost function Counted(c: Config, attempts: seq<nat>): seq<nat> {
    if attempts == [] then []
    else
      var h := Counted(c, Init(attempts));
      if LockedAt(c, h, Last(attempts)) then h else h + [Last(attempts)]
  }

  // ---------------------------------------------------------------- refinement

  /** Slot s stands for the full history h at every time from `now` on. */
  ghost predicate Represents(c: Config, s: Slot, h: seq<nat>, now: nat) {
    && Sorted(h) && NoneAfter(h, now)
    && SliceMatches(c, s.failures, h, now)
    && LockMatches(c, s, h)
  }

  predicate NoneAfter(ts: seq<nat>, now: nat) {
    forall i :: 0 <= i < |ts| ==> ts[i] <= now
  }

  /** The slice is the end of the history; what it lacks left the window for good. */
  predicate SliceMatches(c: Config, slice: seq<nat>, h: seq<nat>, now: nat) {
    && |slice| <= |h| && slice == h[|h| - |slice|..]
    && forall i :: 0 <= i < |h| - |slice| ==> h[i] <= now - c.window
  }

  /** The one stored lockout end is that of the latest trigger. */
  ghost predicate LockMatches(c: Config, s: Slot, h: seq<nat>) {
    || (s.lockoutUntil == 0 && forall i {:trigger Triggers(c, h, i)} :: 0 <= i < |h| ==> !Triggers(c, h, i))
    || exists i {:trigger LatestTrigger(c, h, i)} ::
         0 <= i < |h| && LatestTrigger(c, h, i) && s.lockoutUntil == h[i] + c.lockout
  }

  predicate LatestTrigger(c: Config, h: seq<nat>, i: nat)
    requires i < |h|
  {
    Triggers(c, h, i) && forall j {:trigger Triggers(c, h, j)} :: i < j < |h| ==> !Triggers(c, h, j)
  }

  /** On a sorted sequence an interval's entries are a contiguous block. */
  lemma {:induction false} CountIsBlock(ts: seq<nat>, lo: int, hi: int) returns (p: nat, q: nat)
    requires Sorted(ts) && lo <= hi
    ensures p <= q <= |ts| && CountIn(ts, lo, hi) == q - p
    ensures forall i :: 0 <= i < p ==> ts[i] <= lo
    ensures forall i :: p <= i < q ==> lo < ts[i] <= hi
    ensures forall i :: q <= i < |ts| ==> hi < ts[i]
  {
    if ts == [] {
      p, q := 0, 0;
    } else {
      p, q := CountIsBlock(Init(ts), lo, hi);
      var n := |ts| - 1;
      assert forall i :: 0 <= i < n ==> Init(ts)[i] == ts[i] <= ts[n];
      if ts[n] <= lo {
        assert p == q;
        p, q := n + 1, n + 1;
      } else if ts[n] <= hi {
        assert q == n;
        q := n + 1;
      }
    }
  }

  lemma {:induction false} SplitPoint(ts: seq<nat>, cutoff: int) returns (p: nat)
    requires Sorted(ts)
    ensures p <= |ts|
    ensures forall i :: 0 <= i < |ts| ==> (ts[i] <= cutoff <==> i < p)
  {
    if ts == [] || Last(ts) <= cutoff {
      p := |ts|;
    } else {
      p := SplitPoint(Init(ts), cutoff);
    }
  }

  lemma {:induction false} AfterIsSuffix(ts: seq<nat>, cutoff: int, p: nat)
    requires p <= |ts|
    requires forall i :: 0 <= i < p ==> ts[i] <= cutoff
    requires forall i :: p <= i < |ts| ==> ts[i] > cutoff
    ensures After(ts, cutoff) == ts[p..]
  {
    if p == |ts| {
      if ts != [] {
        AfterIsSuffix(Init(ts), cutoff, p - 1);
      }
    } else {
      AfterIsSuffix(Init(ts), cutoff, p);
      assert Init(ts)[p..] + [Last(ts)] == ts[p..];
    }
  }

  lemma {:induction false} TriggersExtends(c: Config, h: seq<nat>, t: nat, i: nat)
    requires i < |h|
    ensures Triggers(c, h + [t], i) == Triggers(c, h, i)
  {
    assert (h + [t])[..i] == h[..i];
  }

  lemma {:induction false} LockAnswersAgree(c: Config, s: Slot, h: seq<nat>, now: nat, t: nat)
    requires Represents(c, s, h, now) && now <= t
    ensures t < s.lockoutUntil <==> LockedAt(c, h, t)
  {
    if t < s.lockoutUntil {
      var i :| 0 <= i < |h| && LatestTrigger(c, h, i) && s.lockoutUntil == h[i] + c.lockout;
      assert Triggers(c, h, i) && h[i] <= t;
    }
    if LockedAt(c, h, t) {
      var j :| 0 <= j < |h| && Triggers(c, h, j) && h[j] <= t < h[j] + c.lockout;
      var i :| 0 <= i < |h| && LatestTrigger(c, h, i) && s.lockoutUntil == h[i] + c.lockout;
      assert j <= i;
    }
  }

  lemma {:induction false} CountOfSuffix(ts: seq<nat>, lo: int, hi: int, p: nat)
    requires p <= |ts|
    requires forall i :: 0 <= i < p ==> ts[i] <= lo
    requires forall i :: p <= i < |ts| ==> lo < ts[i] <= hi
    ensures CountIn(ts, lo, hi) == |ts| - p
  {
    if ts != [] {
      CountOfSuffix(Init(ts), lo, hi, if p == |ts| then p - 1 else p);
    }
  }

  /** Pruning keeps the slice right, and its length is the count over the whole history. */
  lemma {:induction false} PrunedSliceMatches(c: Config, slice: seq<nat>, h: seq<nat>, now: nat, t: nat)
    requires Sorted(h) && NoneAfter(h, now) && SliceMatches(c, slice, h, now) && now <= t
    ensures var kept := After(slice, t - c.window);
            SliceMatches(c, kept, h, t) && |kept| == CountIn(h, t - c.window, t)
  {
    var p := SplitPoint(h, t - c.window);
    SuffixSplits(slice, h, now - c.window, t - c.window, p);
    CountOfSuffix(h, t - c.window, t, p);
  }

  /** Cutting the end of a history cuts the history, when what is missing falls below the cutoff too. */
  lemma {:induction false} SuffixSplits(slice: seq<nat>, h: seq<nat>, gone: int, cutoff: int, p: nat)
    requires |slice| <= |h| && slice == h[|h| - |slice|..] && gone <= cutoff
    requires forall i :: 0 <= i < |h| - |slice| ==> h[i] <= gone
    requires p <= |h| && forall i :: 0 <= i < |h| ==> (h[i] <= cutoff <==> i < p)
    ensures After(slice, cutoff) == h[p..]
  {
    var k := |h| - |slice|;
    assert p >= k by {
      assert k == 0 || h[k - 1] <= gone;
    }
    assert forall i :: 0 <= i < |slice| ==> slice[i] == h[k + i];
    AfterIsSuffix(slice, cutoff, p - k);
    SuffixOfSuffix(h, k, p);
  }

  lemma {:induction false} SuffixOfSuffix(h: seq<nat>, k: nat, p: nat)
    requires k <= p <= |h|
    ensures h[k..][p - k..] == h[p..]
  {
  }

  lemma {:induction false} SliceStep(c: Config, slice: seq<nat>, h: seq<nat>, now: nat, t: nat)
    requires Sorted(h) && NoneAfter(h, now) && SliceMatches(c, slice, h, now) && now <= t
    ensures var kept := After(slice, t - c.window) + [t];
            && SliceMatches(c, kept, h + [t], t)
            && (Triggers(c, h + [t], |h|) <==> |kept| >= c.maxAttempts)
  {
    PrunedSliceMatches(c, slice, h, now, t);
    assert (h + [t])[..|h|] == h;
    var kept := After(slice, t - c.window);
    assert kept + [t] == (h + [t])[|h| - |kept|..];
  }

  lemma {:induction false} LockMatchesExtended(c: Config, s: Slot, h: seq<nat>, t: nat, s': Slot)
    requires LockMatches(c, s, h)
    requires s'.lockoutUntil == if Triggers(c, h + [t], |h|) then t + c.lockout else s.lockoutUntil
    ensures LockMatches(c, s', h + [t])
  {
    var h' := h + [t];
    forall i | 0 <= i < |h| ensures Triggers(c, h', i) == Triggers(c, h, i) {
      TriggersExtends(c, h, t, i);
    }
    if Triggers(c, h', |h|) {
      assert LatestTrigger(c, h', |h|);
    } else if exists i :: 0 <= i < |h| && LatestTrigger(c, h, i) && s.lockoutUntil == h[i] + c.lockout {
      var i :| 0 <= i < |h| && LatestTrigger(c, h, i) && s.lockoutUntil == h[i] + c.lockout;
      assert LatestTrigger(c, h', i) && h'[i] == h[i];
    }
  }

  lemma {:induction false} RecordRepresents(c: Config, s: Slot, h: seq<nat>, now: nat, t: nat)
    requires Represents(c, s, h, now) && now <= t
    ensures Represents(c, Record(c, s, t), if LockedAt(c, h, t) then h else h + [t], t)
  {
    LockAnswersAgree(c, s, h, now, t);
    if LockedAt(c, h, t) {
      RepresentsLater(c, s, h, now, t);
    } else {
      CountingRepresents(c, s, h, now, t);
    }
  }

  lemma {:induction false} CountingRepresents(c: Config, s: Slot, h: seq<nat>, now: nat, t: nat)
    requires Represents(c, s, h, now) && now <= t && t >= s.lockoutUntil
    ensures Represents(c, Record(c, s, t), h + [t], t)
  {
    var s' := Record(c, s, t);
    RecordedSlot(c, s, h, now, t);
    LockMatchesExtended(c, s, h, t, s');
    SortedExtended(h, now, t);
  }

  lemma {:induction false} SortedExtended(h: seq<nat>, now: nat, t: nat)
    requires Sorted(h) && NoneAfter(h, now) && now <= t
    ensures Sorted(h + [t]) && NoneAfter(h + [t], t)
  {
  }

  /** The slice length decides as the window's count over the full history would. */
  lemma {:induction false} RecordedSlot(c: Config, s: Slot, h: seq<nat>, now: nat, t: nat)
    requires Represents(c, s, h, now) && now <= t && t >= s.lockoutUntil
    ensures SliceMatches(c, Record(c, s, t).failures, h + [t], t)
    ensures Record(c, s, t).lockoutUntil == if Triggers(c, h + [t], |h|) then t + c.lockout else s.lockoutUntil
  {
    SliceStep(c, s.failures, h, now, t);
  }

  /** Refinement: pruning never loses an entry that could matter later. */
  lemma {:induction false} SlotRepresentsHistory(c: Config, attempts: seq<nat>, now: nat)
    requires Sorted(attempts) && NoneAfter(attempts, now)
    ensures Represents(c, SlotAfter(c, attempts), Counted(c, attempts), now)
  {
    if attempts != [] {
      var before, t := Init(attempts), Last(attempts);
      assert attempts == before + [t];
      SlotRepresentsHistory(c, before, t);
      RecordRepresents(c, SlotAfter(c, before), Counted(c, before), t, t);
      SlotStep(c, before, t);
      CountedStep(c, before, t);
      RepresentsLater(c, SlotAfter(c, attempts), Counted(c, attempts), t, now);
    }
  }

  lemma {:induction false} RepresentsLater(c: Config, s: Slot, h: seq<nat>, now: nat, later: nat)
    requires Represents(c, s, h, now) && now <= later
    ensures Represents(c, s, h, later)
  {
  }

  lemma {:induction false} SlotStep(c: Config, ts: seq<nat>, t: nat)
    ensures SlotAfter(c, ts + [t]) == Record(c, SlotAfter(c, ts), t)
  {
    assert Init(ts + [t]) == ts;
  }

  lemma {:induction false} CountedStep(c: Config, ts: seq<nat>, t: nat)
    ensures Counted(c, ts + [t])
              == if LockedAt(c, Counted(c, ts), t) then Counted(c, ts) else Counted(c, ts) + [t]
  {
    assert Init(ts + [t]) == ts;
  }

  /** Refinement, as a caller sees it: the stored lockout answers like the full history. */
  lemma {:induction false} RefusedExactlyWhenLocked(c: Config, attempts: seq<nat>, now: nat)
    requires Sorted(attempts) && NoneAfter(attempts, now)
    ensures now < SlotAfter(c, attempts).lockoutUntil <==> LockedAt(c, Counted(c, attempts), now)
  {
    SlotRepresentsHistory(c, attempts, now);
    LockAnswersAgree(c, SlotAfter(c, attempts), Counted(c, attempts), now, now);
  }

  // ---------------------------------------------------------------- lockouts

  lemma {:induction false} CountedIsSorted(c: Config, attempts: seq<nat>)
    requires Sorted(attempts)
    ensures Sorted(Counted(c, attempts))
  {
    var now := if attempts == [] then 0 else Last(attempts);
    SlotRepresentsHistory(c, attempts, now);
  }

  /** No counted failure falls inside a lockout, so locked intervals are pairwise disjoint. */
  lemma {:induction false} LockoutsAreDisjoint(c: Config, attempts: seq<nat>, i: nat, j: nat)
    requires Sorted(attempts)
    requires i < j < |Counted(c, attempts)| && Triggers(c, Counted(c, attempts), i)
    ensures Counted(c, attempts)[i] + c.lockout <= Counted(c, attempts)[j]
  {
    var t := Last(attempts);
    var h := Counted(c, Init(attempts));
    if Counted(c, attempts) != h {
      TriggersExtends(c, h, t, i);
    }
    if j < |h| {
      LockoutsAreDisjoint(c, Init(attempts), i, j);
    } else {
      SlotRepresentsHistory(c, Init(attempts), t);
      assert h[i] <= t;
    }
  }

  lemma {:induction false} CountAtLeast(ts: seq<nat>, lo: int, hi: int, p: nat)
    requires p <= |ts| && forall i :: p <= i < |ts| ==> lo < ts[i] <= hi
    ensures CountIn(ts, lo, hi) >= |ts| - p
  {
    if p < |ts| {
      CountAtLeast(Init(ts), lo, hi, p);
    }
  }

  lemma {:induction false} TriggersCrowdOut(c: Config, attempts: seq<nat>, p: nat, n: nat)
    requires Sorted(attempts) && Sane(c) && c.maxAttempts <= n
    requires p + n <= |Counted(c, attempts)|
    requires Counted(c, attempts)[p + n - 1] - Counted(c, attempts)[p] < c.window
    ensures Counted(c, attempts)[p + c.maxAttempts - 1] + (n - c.maxAttempts) * c.lockout
              <= Counted(c, attempts)[p + n - 1]
  {
    var h := Counted(c, attempts);
    CountedIsSorted(c, attempts);
    if c.maxAttempts < n {
      TriggersCrowdOut(c, attempts, p, n - 1);
      var i := p + n - 2;
      CountAtLeast(h[..i], h[i] - c.window, h[i], p);
      LockoutsAreDisjoint(c, attempts, i, i + 1);
      assert (n - c.maxAttempts) * c.lockout == (n - 1 - c.maxAttempts) * c.lockout + c.lockout;
    }
  }

  /** What one window can hold: the budget, plus one failure per lockout that fits. */
  function WindowBudget(c: Config): int
    requires c.lockout > 0
  {
    c.maxAttempts - 1 + CeilDiv(c.window, c.lockout)
  }

  lemma {:induction false} BudgetIsMaxAttempts(c: Config)
    requires Sane(c)
    ensures c.lockout >= c.window <==> WindowBudget(c) == c.maxAttempts
  {
    CeilDivLeast(c.window, c.lockout, 1);
    CeilDivLeast(c.window, c.lockout, 0);
  }

  lemma {:induction false} CloseBlockWithinBudget(c: Config, attempts: seq<nat>, p: nat, n: nat)
    requires Sorted(attempts) && Sane(c) && 0 < n
    requires p + n <= |Counted(c, attempts)|
    requires Counted(c, attempts)[p + n - 1] - Counted(c, attempts)[p] < c.window
    ensures n <= WindowBudget(c)
  {
    CountedIsSorted(c, attempts);
    CeilDivLeast(c.window, c.lockout, 0);
    if c.maxAttempts <= n {
      TriggersCrowdOut(c, attempts, p, n);
      CeilDivLeast(c.window, c.lockout, n - c.maxAttempts);
    }
  }

  /** Sliding budget: wherever a window-long interval starts, it holds no more than this. */
  lemma {:induction false} AnyWindowWithinBudget(c: Config, attempts: seq<nat>, start: int)
    requires Sorted(attempts) && Sane(c)
    ensures CountIn(Counted(c, attempts), start, start + c.window) <= WindowBudget(c)
    ensures c.lockout >= c.window ==>
              CountIn(Counted(c, attempts), start, start + c.window) <= c.maxAttempts
  {
    CountedIsSorted(c, attempts);
    BudgetIsMaxAttempts(c);
    CeilDivLeast(c.window, c.lockout, 0);
    var p, q := CountIsBlock(Counted(c, attempts), start, start + c.window);
    if p < q {
      CloseBlockWithinBudget(c, attempts, p, q - p);
    }
  }

  lemma {:induction false} CountSplits(ts: seq<nat>, lo: int, mid: int, hi: int)
    requires lo <= mid <= hi
    ensures CountIn(ts, lo, hi) == CountIn(ts, lo, mid) + CountIn(ts, mid, hi)
  {
    if ts != [] {
      CountSplits(Init(ts), lo, mid, hi);
    }
  }

  /** Over any length of time the failures let through grow at the window's rate, no faster. */
  lemma {:induction false} AnyIntervalWithinBudget(c: Config, attempts: seq<nat>, start: int, length: nat)
    requires Sorted(attempts) && Sane(c)
    ensures CountIn(Counted(c, attempts), start, start + length)
              <= WindowBudget(c) * CeilDiv(length, c.window)
    decreases length
  {
    var h, b := Counted(c, attempts), WindowBudget(c);
    if length == 0 {
      CountSplits(h, start, start, start);
      CeilDivSmall(0, c.window);
    } else {
      var first := if length <= c.window then length else c.window;
      CountSplits(h, start, start + first, start + c.window);
      CountSplits(h, start, start + first, start + length);
      AnyWindowWithinBudget(c, attempts, start);
      AnyIntervalWithinBudget(c, attempts, start + first, length - first);
      OneWindowLess(length, first, c.window, b);
    }
  }

  lemma {:induction false} OneWindowLess(length: nat, first: nat, window: int, b: int)
    requires 0 < window && 0 < length
    requires first == if length <= window then length else window
    ensures b * CeilDiv(length, window) == b * CeilDiv(length - first, window) + b
  {
    if first == window {
      CeilDivShift(length - first, window);
    } else {
      CeilDivSmall(length, window);
      CeilDivSmall(0, window);
    }
    OneMore(b, CeilDiv(length - first, window));
  }

  // ---------------------------------------------------------------- memory

  lemma {:induction false} AfterIsLater(ts: seq<nat>, cutoff: int)
    ensures forall i :: 0 <= i < |After(ts, cutoff)| ==> After(ts, cutoff)[i] > cutoff
  {
    if ts != [] {
      AfterIsLater(Init(ts), cutoff);
    }
  }

  lemma {:induction false} SliceSpansLessThanWindow(c: Config, attempts: seq<nat>)
    requires Sane(c)
    ensures var f := SlotAfter(c, attempts).failures; f != [] ==> Last(f) - f[0] < c.window
  {
    if attempts != [] {
      SliceSpansLessThanWindow(c, Init(attempts));
      AfterIsLater(SlotAfter(c, Init(attempts)).failures, Last(attempts) - c.window);
    }
  }

  /** The memory bound of one IP, for every run and every positive configuration. */
  lemma {:induction false} SliceWithinBudget(c: Config, attempts: seq<nat>)
    requires Sorted(attempts) && Sane(c)
    ensures |SlotAfter(c, attempts).failures| <= WindowBudget(c)
  {
    var f, h := SlotAfter(c, attempts).failures, Counted(c, attempts);
    SliceSpansLessThanWindow(c, attempts);
    SlotRepresentsHistory(c, attempts, if attempts == [] then 0 else Last(attempts));
    CeilDivLeast(c.window, c.lockout, 0);
    if f != [] {
      CloseBlockWithinBudget(c, attempts, |h| - |f|, |f|);
    }
  }

  lemma {:induction false} AllAfter(ts: seq<nat>, cutoff: int)
    requires forall i :: 0 <= i < |ts| ==> ts[i] > cutoff
    ensures After(ts, cutoff) == ts
  {
    AfterIsSuffix(ts, cutoff, 0);
  }

  /** Within the first window nothing is pruned. */
  lemma {:induction false} UnprunedStep(c: Config, ts: seq<nat>, t: nat, until: int)
    requires SlotAfter(c, ts) == Slot(ts, until) && until <= t < c.window
    ensures SlotAfter(c, ts + [t])
              == Slot(ts + [t], if |ts| + 1 >= c.maxAttempts then t + c.lockout else until)
  {
    SlotStep(c, ts, t);
    AllAfter(ts, t - c.window);
  }

  /** n simultaneous failures, up to maxAttempts of them. */
  lemma {:induction false} BurstFillsSlice(c: Config, n: nat) returns (ts: seq<nat>)
    requires Sane(c) && n <= c.maxAttempts
    ensures |ts| == n && forall i :: 0 <= i < n ==> ts[i] == 0
    ensures SlotAfter(c, ts) == Slot(ts, if n == c.maxAttempts then c.lockout else 0)
  {
    ts := [];
    if n > 0 {
      ts := BurstFillsSlice(c, n - 1);
      UnprunedStep(c, ts, 0, 0);
      ts := ts + [0];
    }
  }

  /** maxAttempts failures at once, then one more as each of k lockouts ends. */
  lemma {:induction false} WorstRunFillsSlice(c: Config, k: nat, end: nat) returns (ts: seq<nat>)
    requires Sane(c) && end == k * c.lockout && end < c.window
    ensures Sorted(ts) && NoneAfter(ts, end) && |ts| == c.maxAttempts + k
    ensures SlotAfter(c, ts) == Slot(ts, end + c.lockout)
  {
    if k == 0 {
      ts := BurstFillsSlice(c, c.maxAttempts);
    } else {
      OneMore(c.lockout, k - 1);
      var before := WorstRunFillsSlice(c, k - 1, end - c.lockout);
      WorstRunStep(c, before, end);
      ts := before + [end];
    }
  }

  lemma {:induction false} WorstRunStep(c: Config, ts: seq<nat>, end: nat)
    requires Sane(c) && c.lockout <= end < c.window && |ts| >= c.maxAttempts
    requires Sorted(ts) && NoneAfter(ts, end - c.lockout) && SlotAfter(c, ts) == Slot(ts, end)
    ensures Sorted(ts + [end]) && NoneAfter(ts + [end], end)
    ensures SlotAfter(c, ts + [end]) == Slot(ts + [end], end + c.lockout)
  {
    UnprunedStep(c, ts, end, end);
    SortedExtended(ts, end - c.lockout, end);
  }

  /** The bound is attained in every configuration, so no smaller one holds. */
  lemma {:induction false} SliceBoundIsTight(c: Config) returns (attempts: seq<nat>)
    requires Sane(c)
    ensures Sorted(attempts) && |SlotAfter(c, attempts).failures| == WindowBudget(c)
  {
    CeilDivLeast(c.window, c.lockout, 0);
    var k := CeilDiv(c.window, c.lockout) - 1;
    CeilDivLeast(c.window, c.lockout, k);
    attempts := WorstRunFillsSlice(c, k, k * c.lockout);
  }

  /** At most maxAttempts entries are ever held exactly when a lockout outlasts the window. */
  lemma {:induction false} SliceHoldsMaxAttemptsIff(c: Config)
    requires Sane(c)
    ensures (forall attempts :: Sorted(attempts) ==> |SlotAfter(c, attempts).failures| <= c.maxAttempts)
       <==> c.lockout >= c.window
  {
    BudgetIsMaxAttempts(c);
    if c.lockout >= c.window {
      forall attempts | Sorted(attempts) ensures |SlotAfter(c, attempts).failures| <= c.maxAttempts {
        SliceWithinBudget(c, attempts);
      }
    } else {
      var attempts := SliceBoundIsTight(c);
      CeilDivLeast(c.window, c.lockout, 1);
    }
  }

  // ---------------------------------------------------------------- waiting a lock out

  lemma {:induction false} LockedAttemptsChangeNothing(c: Config, attempts: seq<nat>, more: seq<nat>)
    requires forall i :: 0 <= i < |more| ==> more[i] < SlotAfter(c, attempts).lockoutUntil
    ensures SlotAfter(c, attempts + more) == SlotAfter(c, attempts)
  {
    if more == [] {
      assert attempts + more == attempts;
    } else {
      assert Init(attempts + more) == attempts + Init(more);
      LockedAttemptsChangeNothing(c, attempts, Init(more));
    }
  }

  const SECOND := 1_000_000_000

  /** The Retry-After value for a remaining lockout, in whole seconds. */
  function RetryAfter(remaining: int): int {
    CeilDiv(remaining, SECOND)
  }

  lemma {:induction false} WaitCovers(remaining: int, w: nat)
    requires remaining > 0
    ensures w * SECOND < remaining <==> w < RetryAfter(remaining)
    ensures RetryAfter(remaining) >= 1
  {
    CeilDivLeast(remaining, SECOND, w);
    CeilDivLeast(remaining, SECOND, 0);
  }

  lemma {:induction false} LockedUntilItsEnd(c: Config, attempts: seq<nat>, more: seq<nat>, t: nat)
    requires Sorted(attempts + more) && NoneAfter(attempts + more, t)
    requires forall i :: 0 <= i < |more| ==> more[i] < SlotAfter(c, attempts).lockoutUntil
    ensures LockedAt(c, Counted(c, attempts + more), t) <==> t < SlotAfter(c, attempts).lockoutUntil
  {
    LockedAttemptsChangeNothing(c, attempts, more);
    RefusedExactlyWhenLocked(c, attempts + more, t);
  }

  /**
    Retry-After is the least wait that ends the lock, however many further failures
    arrive while it lasts: a whole number of seconds w is too short exactly when it is
    smaller than the value sent.
  */
  lemma {:induction false} RetryAfterIsLeastWait(c: Config, attempts: seq<nat>, now: nat, more: seq<nat>, w: nat)
    requires now < SlotAfter(c, attempts).lockoutUntil
    requires Sorted(attempts + more) && NoneAfter(attempts + more, now + w * SECOND)
    requires forall i :: 0 <= i < |more| ==> more[i] < SlotAfter(c, attempts).lockoutUntil
    ensures LockedAt(c, Counted(c, attempts + more), now + w * SECOND)
       <==> w < RetryAfter(SlotAfter(c, attempts).lockoutUntil - now)
    ensures RetryAfter(SlotAfter(c, attempts).lockoutUntil - now) >= 1
  {
    LockedUntilItsEnd(c, attempts, more, now + w * SECOND);
    WaitCovers(SlotAfter(c, attempts).lockoutUntil - now, w);
  }
}
