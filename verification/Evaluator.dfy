/**
  Threshold evaluation: heterogeneous values against numeric or mapped levels, folded to
  the worst status and the place it was first reached. Message texts are not modelled,
  only which item or key each message is about.
*/
module Evaluator {
  import opened Options
  import opened Seqs

  type Status = s: nat | s <= 3

  const OK: Status := 0
  const WARNING: Status := 2
  const CRITICAL: Status := 3

  /** A JSON scalar as Python holds it; a number also carries its str(). */
  datatype Value = Null | Bool(b: bool) | Num(n: real, shown: string) | Text(s: string)

  type Item = map<string, Value>

  /** str(value).lower() */
  function Shown(v: Value): string {
    match v
    case Null => "none"
    case Bool(b) => if b then "true" else "false"
    case Num(_, shown) => Lower(shown)
    case Text(s) => Lower(s)
  }

  predicate Truthy(v: Value) {
    match v
    case Null => false
    case Bool(b) => b
    case Num(n, _) => n != 0.0
    case Text(s) => s != ""
  }

  /** What an ordering comparison with a number sees; None is a TypeError. */
  function Reading(v: Value): Option<real> {
    match v
    case Bool(b) => Some(if b then 1.0 else 0.0)
    case Num(n, _) => Some(n)
    case _ => None
  }

  datatype Levels = Numeric(warning: real, critical: Option<real>) | Mapping(statuses: map<string, Status>)

  /** A service's thresholds; the two parameters that are not thresholds stand apart. */
  datatype Thresholds = Thresholds(levels: seq<(string, Levels)>, minDeadTuples: Option<real>, errorStatus: Status)

  predicate Comparable(v: Value, l: Levels) {
    l.Numeric? && l.critical.Some? ==> Reading(v).Some?
  }

  function CheckThreshold(v: Value, l: Levels): Status
    requires Comparable(v, l)
  {
    match l
    case Mapping(statuses) => if Shown(v) in statuses then statuses[Shown(v)] else WARNING
    case Numeric(_, None) => OK
    case Numeric(warning, Some(critical)) =>
      var r := Reading(v).value;
      if warning < critical then
        if r >= critical then CRITICAL else if r >= warning then WARNING else OK
      else
        if r <= critical then CRITICAL else if r <= warning then WARNING else OK
  }

  // ---------------------------------------------------------------- the worst of many

  /** The maximum, and the first index that reaches it unless everything is ok. */
  predicate IsWorst(ss: seq<Status>, worst: Status, first: Option<nat>) {
    && (forall i :: 0 <= i < |ss| ==> ss[i] <= worst)
    && match first
       case None => worst == OK
       case Some(k) => k < |ss| && ss[k] == worst > OK && forall i :: 0 <= i < k ==> ss[i] < worst
  }

  function Worst(ss: seq<Status>): (worst: Status)
    ensures forall i :: 0 <= i < |ss| ==> ss[i] <= worst
    ensures worst == OK || worst in ss
  {
    if ss == [] then OK
    else
      var before := Worst(Init(ss));
      if Last(ss) > before then Last(ss) else before
  }

  lemma {:induction false} WorstIsUnique(ss: seq<Status>, worst: Status, first: Option<nat>)
    requires IsWorst(ss, worst, first)
    ensures worst == Worst(ss)
  {
    if first.Some? {
      assert ss[first.value] <= Worst(ss);
    }
  }

  lemma {:induction false} WorstStep(ss: seq<Status>, i: nat, worst: Status, first: Option<nat>)
    requires i < |ss| && IsWorst(ss[..i], worst, first)
    ensures if ss[i] > worst then IsWorst(ss[..i + 1], ss[i], Some(i)) else IsWorst(ss[..i + 1], worst, first)
  {
    assert ss[..i + 1] == ss[..i] + [ss[i]];
  }

  lemma {:induction false} WorstDependsOnMembers(ss: seq<Status>, tt: seq<Status>)
    requires forall s :: s in ss ==> s in tt
    ensures Worst(ss) <= Worst(tt)
  {
  }

  lemma {:induction false} WorstIsMonotone(ss: seq<Status>, tt: seq<Status>)
    requires |ss| == |tt| && forall i :: 0 <= i < |ss| ==> ss[i] <= tt[i]
    ensures Worst(ss) <= Worst(tt)
  {
    if Worst(ss) in ss {
      var i :| 0 <= i < |ss| && ss[i] == Worst(ss);
      assert tt[i] <= Worst(tt);
    }
  }

  // ---------------------------------------------------------------- when a value reaches a level

  /** At or past the level, going from warning to critical; of equal levels the lower side is worse. */
  predicate Past(r: real, level: real, warning: real, critical: real) {
    if warning != critical then (r - level) * (critical - warning) >= 0.0 else r <= level
  }

  /** The value puts its key at the status or worse: note, warning or critical. */
  predicate Reaches(v: Value, l: Levels, status: nat) {
    match l
    case Mapping(statuses) =>
      (Shown(v) in statuses && statuses[Shown(v)] >= status) || (Shown(v) !in statuses && status <= 2)
    case Numeric(warning, critical) =>
      critical.Some? && Reading(v).Some? &&
      Past(Reading(v).value, if status == 3 then critical.value else warning, warning, critical.value)
  }

  lemma {:induction false} SideOf(r: real, level: real, warning: real, critical: real)
    ensures warning < critical ==> (Past(r, level, warning, critical) <==> r >= level)
    ensures warning > critical ==> (Past(r, level, warning, critical) <==> r <= level)
  {
    var d, e := r - level, critical - warning;
    if e > 0.0 {
      SignOf(d, e);
    } else if e < 0.0 {
      SignOf(d, -e);
      assert d * e == -(d * (-e));
    }
  }

  lemma {:induction false} SignOf(d: real, e: real)
    requires e > 0.0
    ensures d * e >= 0.0 <==> d >= 0.0
    ensures d * e <= 0.0 <==> d <= 0.0
  {
    if d > 0.0 {
      assert d * e > 0.0;
    } else if d < 0.0 {
      assert (-d) * e > 0.0 && d * e == -((-d) * e);
    }
  }

  lemma {:induction false} CheckReachesIff(v: Value, l: Levels, status: nat)
    requires Comparable(v, l) && 1 <= status <= 3
    ensures CheckThreshold(v, l) >= status <==> Reaches(v, l, status)
  {
    if l.Numeric? && l.critical.Some? {
      SideOf(Reading(v).value, l.warning, l.warning, l.critical.value);
      SideOf(Reading(v).value, l.critical.value, l.warning, l.critical.value);
    }
  }

  /** What is shown and read of each kind of value. */
  lemma {:induction false} ShownAndRead()
    ensures Shown(Null) == "none" && Shown(Bool(true)) == "true" && Shown(Bool(false)) == "false"
    ensures forall s :: Shown(Text(s)) == Lower(s)
    ensures Reading(Null) == None && Reading(Bool(true)) == Some(1.0) && Reading(Bool(false)) == Some(0.0)
    ensures forall n, shown :: Reading(Num(n, shown)) == Some(n) && Shown(Num(n, shown)) == Lower(shown)
    ensures forall s :: Reading(Text(s)) == None
  {
  }

  lemma {:induction false} WorstReachesIff(ss: seq<Status>, status: nat)
    requires 1 <= status
    ensures Worst(ss) >= status <==> exists i :: 0 <= i < |ss| && ss[i] >= status
  {
    if Worst(ss) >= status {
      var i :| 0 <= i < |ss| && ss[i] == Worst(ss);
    }
  }

  // ---------------------------------------------------------------- one item

  predicate ItemComparable(item: Item, th: Thresholds) {
    forall i :: 0 <= i < |th.levels| && th.levels[i].0 in item ==> Comparable(item[th.levels[i].0], th.levels[i].1)
  }

  function KeyStatus(item: Item, key: string, l: Levels): Status
    requires key in item ==> Comparable(item[key], l)
  {
    if key in item then CheckThreshold(item[key], l) else OK
  }

  function KeyStatuses(item: Item, th: Thresholds): seq<Status>
    requires ItemComparable(item, th)
  {
    seq(|th.levels|, i requires 0 <= i < |th.levels| => KeyStatus(item, th.levels[i].0, th.levels[i].1))
  }

  predicate HasError(item: Item) {
    "error" in item && Truthy(item["error"])
  }

  /** item_status raises on a value that cannot be compared, unless an error comes first. */
  predicate ItemReadable(item: Item, th: Thresholds) {
    HasError(item) || ItemComparable(item, th)
  }

  function StatusOf(item: Item, th: Thresholds): Status
    requires ItemReadable(item, th)
  {
    if HasError(item) then th.errorStatus else Worst(KeyStatuses(item, th))
  }

  datatype Cause = ErrorText | Threshold(index: nat)

  method ItemStatus(item: Item, th: Thresholds) returns (status: Status, cause: Option<Cause>)
    requires ItemReadable(item, th)
    ensures status == StatusOf(item, th)
    ensures forall s: nat :: 1 <= s <= 3 ==> (status >= s <==> ItemReaches(item, th, s))
    ensures HasError(item) <==> cause == Some(ErrorText)
    ensures !HasError(item) ==>
              IsWorst(KeyStatuses(item, th), status, if cause == None then None else Some(cause.value.index))
  {
    StatusReachesAll(item, th);
    if "error" in item && Truthy(item["error"]) {
      return th.errorStatus, Some(ErrorText);
    }
    var first;
    status, first := EvaluateSingle(item, th);
    cause := if first.None? then None else Some(Threshold(first.value));
    WorstIsUnique(KeyStatuses(item, th), status, first);
  }

  /** The threshold loop, over one dict of values. */
  method EvaluateSingle(data: Item, th: Thresholds) returns (worst: Status, first: Option<nat>)
    requires ItemComparable(data, th)
    ensures IsWorst(KeyStatuses(data, th), worst, first)
  {
    worst, first := OK, None;
    for i := 0 to |th.levels|
      invariant IsWorst(KeyStatuses(data, th)[..i], worst, first)
    {
      WorstStep(KeyStatuses(data, th), i, worst, first);
      var (key, levels) := th.levels[i];
      if key !in data {
        continue;
      }
      var status := CheckThreshold(data[key], levels);
      if status > worst {
        worst, first := status, Some(i);
      }
    }
    assert KeyStatuses(data, th)[..|th.levels|] == KeyStatuses(data, th);
  }

  /** Some level on a key that is there is reached. */
  predicate SomeKeyReaches(item: Item, th: Thresholds, status: nat) {
    exists i :: 0 <= i < |th.levels| && th.levels[i].0 in item && Reaches(item[th.levels[i].0], th.levels[i].1, status)
  }

  /** An error that is neither null, false, zero nor empty decides; otherwise the levels do. */
  predicate ItemReaches(item: Item, th: Thresholds, status: nat) {
    if "error" in item && IsSomething(item["error"]) then th.errorStatus >= status
    else SomeKeyReaches(item, th, status)
  }

  predicate IsSomething(v: Value) {
    v !in {Null, Bool(false), Text("")} && !(v.Num? && v.n == 0.0)
  }

  lemma {:induction false} KeysReachIff(item: Item, th: Thresholds, status: nat)
    requires ItemComparable(item, th) && 1 <= status <= 3
    ensures Worst(KeyStatuses(item, th)) >= status <==> SomeKeyReaches(item, th, status)
  {
    var ss := KeyStatuses(item, th);
    WorstReachesIff(ss, status);
    forall i | 0 <= i < |th.levels|
      ensures ss[i] >= status <==>
                th.levels[i].0 in item && Reaches(item[th.levels[i].0], th.levels[i].1, status)
    {
      if th.levels[i].0 in item {
        CheckReachesIff(item[th.levels[i].0], th.levels[i].1, status);
      }
    }
  }

  lemma {:induction false} StatusReachesIff(item: Item, th: Thresholds, status: nat)
    requires ItemReadable(item, th) && 1 <= status <= 3
    ensures StatusOf(item, th) >= status <==> ItemReaches(item, th, status)
  {
    if !HasError(item) {
      KeysReachIff(item, th, status);
    }
  }

  lemma {:induction false} StatusReachesAll(item: Item, th: Thresholds)
    requires ItemReadable(item, th)
    ensures forall s: nat :: 1 <= s <= 3 ==> (StatusOf(item, th) >= s <==> ItemReaches(item, th, s))
  {
    forall s: nat | 1 <= s <= 3 ensures StatusOf(item, th) >= s <==> ItemReaches(item, th, s) {
      StatusReachesIff(item, th, s);
    }
  }

  // ---------------------------------------------------------------- a list of items

  predicate DeadTuplesReadable(item: Item, th: Thresholds) {
    "error" !in item && th.minDeadTuples.Some? && "dead_tuples" in item ==> Reading(item["dead_tuples"]).Some?
  }

  /** Below the dead-tuple floor, and not an item a probe failed on. */
  predicate FilteredOut(item: Item, th: Thresholds)
    requires DeadTuplesReadable(item, th)
  {
    && "error" !in item && th.minDeadTuples.Some?
    && (if "dead_tuples" in item then Reading(item["dead_tuples"]).value else 0.0) < th.minDeadTuples.value
  }

  predicate Readable(item: Item, th: Thresholds) {
    DeadTuplesReadable(item, th) && (FilteredOut(item, th) || ItemReadable(item, th))
  }

  function Contribution(item: Item, th: Thresholds): Status
    requires Readable(item, th)
  {
    if FilteredOut(item, th) then OK else StatusOf(item, th)
  }

  predicate AllReadable(items: seq<Item>, th: Thresholds) {
    forall i :: 0 <= i < |items| ==> Readable(items[i], th)
  }

  function Contributions(items: seq<Item>, th: Thresholds): seq<Status>
    requires AllReadable(items, th)
  {
    seq(|items|, i requires 0 <= i < |items| => Contribution(items[i], th))
  }

  /** The service status: the worst unfiltered item, and the first item to reach it. */
  method EvaluateList(items: seq<Item>, th: Thresholds) returns (worst: Status, first: Option<nat>)
    requires AllReadable(items, th)
    ensures IsWorst(Contributions(items, th), worst, first)
  {
    worst, first := OK, None;
    for i := 0 to |items|
      invariant IsWorst(Contributions(items, th)[..i], worst, first)
    {
      WorstStep(Contributions(items, th), i, worst, first);
      if FilteredOut(items[i], th) {
        continue;
      }
      var status, _ := ItemStatus(items[i], th);
      if status > worst {
        worst, first := status, Some(i);
      }
    }
    assert Contributions(items, th)[..|items|] == Contributions(items, th);
  }

  /** The status does not depend on the order of the items. */
  lemma {:induction false} OrderDoesNotMatter(items: seq<Item>, others: seq<Item>, th: Thresholds)
    requires AllReadable(items, th) && multiset(items) == multiset(others)
    ensures AllReadable(others, th) && Worst(Contributions(items, th)) == Worst(Contributions(others, th))
  {
    assert forall x :: x in others <==> x in multiset(others);
    assert forall x :: x in items <==> x in multiset(items);
    assert forall i :: 0 <= i < |others| ==> others[i] in items;
    MembersContribute(items, others, th);
    MembersContribute(others, items, th);
  }

  lemma {:induction false} MembersContribute(items: seq<Item>, others: seq<Item>, th: Thresholds)
    requires AllReadable(items, th) && AllReadable(others, th) && forall x :: x in items ==> x in others
    ensures Worst(Contributions(items, th)) <= Worst(Contributions(others, th))
  {
    var cs, ds := Contributions(items, th), Contributions(others, th);
    forall s | s in cs ensures s in ds {
      var i :| 0 <= i < |items| && cs[i] == s;
      assert items[i] in others;
      var j :| 0 <= j < |others| && others[j] == items[i];
      assert ds[j] == s;
    }
    WorstDependsOnMembers(cs, ds);
  }

  /** More items never make a service look better. */
  lemma {:induction false} AddingItemsNeverHelps(items: seq<Item>, more: seq<Item>, th: Thresholds)
    requires AllReadable(items, th) && AllReadable(more, th)
    ensures AllReadable(items + more, th)
    ensures Worst(Contributions(items, th)) <= Worst(Contributions(items + more, th))
  {
    MembersContribute(items, items + more, th);
  }

  /** An item a probe failed on always counts, whatever the filter says of its data. */
  lemma {:induction false} ErrorsAlwaysCount(items: seq<Item>, th: Thresholds, i: nat)
    requires AllReadable(items, th) && i < |items| && HasError(items[i])
    ensures th.errorStatus <= Worst(Contributions(items, th))
  {
    assert Contributions(items, th)[i] == th.errorStatus;
  }

  /** Not dropped for its dead tuples, which count as none where the key is absent; never dropped with an error key. */
  predicate IsJudged(item: Item, th: Thresholds) {
    || "error" in item || th.minDeadTuples == None
    || (if "dead_tuples" !in item then th.minDeadTuples.value <= 0.0
        else Reading(item["dead_tuples"]).Some? && th.minDeadTuples.value <= Reading(item["dead_tuples"]).value)
  }

  lemma {:induction false} ListReachesIff(items: seq<Item>, th: Thresholds, status: nat)
    requires AllReadable(items, th) && 1 <= status <= 3
    ensures Worst(Contributions(items, th)) >= status <==>
              exists i :: 0 <= i < |items| && IsJudged(items[i], th) && ItemReaches(items[i], th, status)
  {
    var ss := Contributions(items, th);
    WorstReachesIff(ss, status);
    forall i | 0 <= i < |items|
      ensures ss[i] >= status <==> IsJudged(items[i], th) && ItemReaches(items[i], th, status)
    {
      if !FilteredOut(items[i], th) {
        StatusReachesIff(items[i], th, status);
      }
    }
  }

  // ---------------------------------------------------------------- worse readings

  /** v moves to v' in the direction the levels call worse, and may stay put. */
  predicate NoBetter(l: Levels, v: Value, v': Value) {
    match l
    case Mapping(_) => v == v'
    case Numeric(_, None) => true
    case Numeric(warning, Some(critical)) =>
      && Reading(v).Some? && Reading(v').Some?
      && if warning < critical then Reading(v).value <= Reading(v').value else Reading(v').value <= Reading(v).value
  }

  /** v' is no better than v under every level set on the key. */
  predicate KeyNoBetter(th: Thresholds, key: string, v: Value, v': Value) {
    forall i :: 0 <= i < |th.levels| && th.levels[i].0 == key ==> NoBetter(th.levels[i].1, v, v')
  }

  lemma {:induction false} WorseReadingNeverHelps(item: Item, th: Thresholds, key: string, v': Value)
    requires key in item && key != "error" && KeyNoBetter(th, key, item[key], v') && ItemReadable(item, th)
    ensures ItemReadable(item[key := v'], th) && StatusOf(item, th) <= StatusOf(item[key := v'], th)
  {
    var item' := item[key := v'];
    if !HasError(item) {
      forall i | 0 <= i < |th.levels| && th.levels[i].0 in item'
        ensures Comparable(item'[th.levels[i].0], th.levels[i].1)
        ensures KeyStatuses(item, th)[i] <= CheckThreshold(item'[th.levels[i].0], th.levels[i].1)
      {
        assert th.levels[i].0 == key ==> NoBetter(th.levels[i].1, item[key], v');
      }
      WorstIsMonotone(KeyStatuses(item, th), KeyStatuses(item', th));
    }
  }

  /**
    A reading moving in its worse direction lowers an item's contribution exactly when
    the move drops a non-ok item below the dead-tuple floor; so never for another key.
  */
  lemma {:induction false} ContributionDropsIff(item: Item, th: Thresholds, key: string, v': Value)
    requires key in item && key != "error" && KeyNoBetter(th, key, item[key], v')
    requires Readable(item, th) && Readable(item[key := v'], th)
    ensures Contribution(item[key := v'], th) < Contribution(item, th)
       <==> !FilteredOut(item, th) && FilteredOut(item[key := v'], th) && StatusOf(item, th) > OK
    ensures key != "dead_tuples" ==> Contribution(item, th) <= Contribution(item[key := v'], th)
  {
    if !FilteredOut(item, th) {
      WorseReadingNeverHelps(item, th, key, v');
    }
  }

  /** Changing one entry lowers the worst exactly when it falls and stood alone at the top. */
  lemma {:induction false} WorstDropsIff(ss: seq<Status>, k: nat, s: Status)
    requires k < |ss|
    ensures Worst(ss[k := s]) < Worst(ss) <==> s < ss[k] && forall j :: 0 <= j < |ss| && j != k ==> ss[j] < ss[k]
  {
    var tt := ss[k := s];
    assert tt[k] == s && forall j :: 0 <= j < |ss| && j != k ==> tt[j] == ss[j];
    if Worst(tt) < Worst(ss) {
      var i :| 0 <= i < |ss| && ss[i] == Worst(ss);
      assert i == k;
    }
  }

  /** Item k counts for more than any other. */
  predicate StandsAlone(items: seq<Item>, th: Thresholds, k: nat)
    requires k < |items| && AllReadable(items, th)
  {
    forall j :: 0 <= j < |items| && j != k ==> Contribution(items[j], th) < Contribution(items[k], th)
  }

  lemma {:induction false} ChangedItemDropsIff(items: seq<Item>, th: Thresholds, k: nat, item': Item)
    requires k < |items| && AllReadable(items, th) && Readable(item', th)
    ensures AllReadable(items[k := item'], th)
    ensures Worst(Contributions(items[k := item'], th)) < Worst(Contributions(items, th))
       <==> Contribution(item', th) < Contribution(items[k], th) && StandsAlone(items, th, k)
  {
    var cs, ds := Contributions(items, th), Contributions(items[k := item'], th);
    assert ds == cs[k := Contribution(item', th)];
    WorstDropsIff(cs, k, Contribution(item', th));
    assert forall j :: 0 <= j < |cs| ==> cs[j] == Contribution(items[j], th);
  }

  /**
    The service status under a reading that moves in its worse direction, in either
    orientation and for every key: it drops exactly when the move takes a non-ok item,
    worse than all the others, below the dead-tuple floor.
  */
  lemma {:induction false} StatusDropsIff(items: seq<Item>, th: Thresholds, k: nat, key: string, v': Value)
    requires k < |items| && key in items[k] && key != "error"
    requires KeyNoBetter(th, key, items[k][key], v')
    requires AllReadable(items, th) && Readable(items[k][key := v'], th)
    ensures var item', items' := items[k][key := v'], items[k := items[k][key := v']];
            AllReadable(items', th) &&
            (Worst(Contributions(items', th)) < Worst(Contributions(items, th)) <==>
              !FilteredOut(items[k], th) && FilteredOut(item', th)
              && StatusOf(items[k], th) > OK && StandsAlone(items, th, k))
  {
    ContributionDropsIff(items[k], th, key, v');
    ChangedItemDropsIff(items, th, k, items[k][key := v']);
  }

  /** Some level makes higher readings of the key worse, so its worse direction is away from the floor. */
  predicate HigherIsWorse(th: Thresholds, key: string) {
    exists i :: 0 <= i < |th.levels| && th.levels[i].0 == key && Upward(th.levels[i].1)
  }

  predicate Upward(l: Levels) {
    l.Numeric? && l.critical.Some? && l.warning < l.critical.value
  }

  /** So the status never drops, but for dead_tuples readings that only lower-is-worse levels judge. */
  lemma {:induction false} StatusIsMonotone(items: seq<Item>, th: Thresholds, k: nat, key: string, v': Value)
    requires k < |items| && key in items[k] && key != "error"
    requires key == "dead_tuples" ==> HigherIsWorse(th, key) && Readable(items[k][key := v'], th)
    requires KeyNoBetter(th, key, items[k][key], v')
    requires AllReadable(items, th)
    ensures var items' := items[k := items[k][key := v']];
            AllReadable(items', th) && Worst(Contributions(items, th)) <= Worst(Contributions(items', th))
  {
    var item' := items[k][key := v'];
    if key == "dead_tuples" {
      var i :| 0 <= i < |th.levels| && th.levels[i].0 == key && Upward(th.levels[i].1);
      assert NoBetter(th.levels[i].1, items[k][key], v');
    }
    assert FilteredOut(item', th) ==> FilteredOut(items[k], th);
    if !FilteredOut(items[k], th) {
      WorseReadingNeverHelps(items[k], th, key, v');
    } else if key != "dead_tuples" {
      assert FilteredOut(item', th);
    }
    StatusDropsIff(items, th, k, key, v');
  }

  /** The floor does break it: a lower-is-worse level on dead_tuples filters its own alarm away. */
  lemma {:induction false} FloorHidesLowDeadTuples()
    ensures var th := Thresholds([("dead_tuples", Numeric(2000.0, Some(1000.0)))], Some(500.0), WARNING);
            var before, after := map["dead_tuples" := Num(600.0, "600")], map["dead_tuples" := Num(400.0, "400")];
            && KeyNoBetter(th, "dead_tuples", before["dead_tuples"], after["dead_tuples"])
            && Readable(before, th) && Readable(after, th)
            && Contribution(before, th) == CRITICAL && Contribution(after, th) == OK
  {
    var th := Thresholds([("dead_tuples", Numeric(2000.0, Some(1000.0)))], Some(500.0), WARNING);
    var before: Item := map["dead_tuples" := Num(600.0, "600")];
    assert KeyStatuses(before, th) == [CRITICAL];
    assert Worst([CRITICAL]) == CRITICAL by { assert [CRITICAL][0] <= Worst([CRITICAL]); }
  }

  // ---------------------------------------------------------------- containers

  datatype ContainerMaps = ContainerMaps(health: map<string, Status>, status: map<string, Status>, fallback: Status)

  function GetOr(m: map<string, string>, key: string): string {
    if key in m then m[key] else "unknown"
  }

  /** Health first; the Docker status when health is unknown or unmapped; else the default. */
  function ContainerStatus(item: map<string, string>, maps: ContainerMaps): Status {
    var health, docker := GetOr(item, "health"), GetOr(item, "status");
    if health != "unknown" && health in maps.health then maps.health[health]
    else if docker in maps.status then maps.status[docker]
    else maps.fallback
  }

  function ContainerStatuses(items: seq<map<string, string>>, maps: ContainerMaps): seq<Status> {
    seq(|items|, i requires 0 <= i < |items| => ContainerStatus(items[i], maps))
  }

  method EvaluateContainers(items: seq<map<string, string>>, maps: ContainerMaps)
    returns (worst: Status, first: Option<nat>)
    ensures IsWorst(ContainerStatuses(items, maps), worst, first)
  {
    worst, first := OK, None;
    for i := 0 to |items|
      invariant IsWorst(ContainerStatuses(items, maps)[..i], worst, first)
    {
      var health, docker := GetOr(items[i], "health"), GetOr(items[i], "status");
      var level: Status;
      if health != "unknown" && health in maps.health {
        level := maps.health[health];
      } else if docker in maps.status {
        level := maps.status[docker];
      } else {
        level := maps.fallback;
      }
      if level > worst {
        worst, first := level, Some(i);
      }
    }
    assert ContainerStatuses(items, maps)[..|items|] == ContainerStatuses(items, maps);
  }

  /** Unknown or unmapped health gives way to the Docker status, and an unmapped one of that to the default. */
  predicate ContainerReaches(item: map<string, string>, maps: ContainerMaps, status: nat) {
    var healthCounts := "health" in item && item["health"] != "unknown" && item["health"] in maps.health;
    var docker := if "status" in item then item["status"] else "unknown";
    || (healthCounts && maps.health[item["health"]] >= status)
    || (!healthCounts && docker in maps.status && maps.status[docker] >= status)
    || (!healthCounts && docker !in maps.status && maps.fallback >= status)
  }

  lemma {:induction false} ContainersReachIff(items: seq<map<string, string>>, maps: ContainerMaps, status: nat)
    requires 1 <= status <= 3
    ensures Worst(ContainerStatuses(items, maps)) >= status <==>
              exists i :: 0 <= i < |items| && ContainerReaches(items[i], maps, status)
  {
    var ss := ContainerStatuses(items, maps);
    WorstReachesIff(ss, status);
    forall i | 0 <= i < |items| ensures ss[i] >= status <==> ContainerReaches(items[i], maps, status) {
      assert ss[i] == ContainerStatus(items[i], maps);
    }
  }

  // ---------------------------------------------------------------- a service

  datatype Data =
    | Single(values: Item)
    | Items(items: seq<Item>)
    | Containers(containers: seq<map<string, string>>, maps: ContainerMaps)

  datatype ServiceConfig = ServiceConfig(thresholds: Thresholds, alertMinLevel: Status)

  /** Data the evaluator can judge without a TypeError. */
  predicate Judgeable(data: Data, config: ServiceConfig) {
    match data
    case Single(values) => ItemComparable(values, config.thresholds)
    case Items(items) => AllReadable(items, config.thresholds)
    case Containers(_, _) => true
  }

  function Verdict(data: Data, config: ServiceConfig): Status
    requires Judgeable(data, config)
  {
    match data
    case Single(values) => Worst(KeyStatuses(values, config.thresholds))
    case Items(items) => Worst(Contributions(items, config.thresholds))
    case Containers(containers, maps) => Worst(ContainerStatuses(containers, maps))
  }

  /** Something in the data reaches the status. */
  predicate DataReaches(data: Data, config: ServiceConfig, status: nat) {
    match data
    case Single(values) => SomeKeyReaches(values, config.thresholds, status)
    case Items(items) =>
      var th := config.thresholds;
      exists i :: 0 <= i < |items| && IsJudged(items[i], th) && ItemReaches(items[i], th, status)
    case Containers(containers, maps) =>
      exists i :: 0 <= i < |containers| && ContainerReaches(containers[i], maps, status)
  }

  /** A service is at note, warning or critical, or worse, exactly when something in its data is. */
  lemma {:induction false} VerdictReachesIff(data: Data, config: ServiceConfig, status: nat)
    requires Judgeable(data, config) && 1 <= status <= 3
    ensures Verdict(data, config) >= status <==> DataReaches(data, config, status)
  {
    match data
    case Single(values) => KeysReachIff(values, config.thresholds, status);
    case Items(items) => ListReachesIff(items, config.thresholds, status);
    case Containers(containers, maps) => ContainersReachIff(containers, maps, status);
  }

  method Evaluate(data: Data, config: ServiceConfig) returns (status: Status, shouldAlert: bool)
    requires Judgeable(data, config)
    ensures status == Verdict(data, config) && (shouldAlert <==> status >= config.alertMinLevel)
    ensures forall s: nat :: 1 <= s <= 3 ==> (status >= s <==> DataReaches(data, config, s))
  {
    forall s: nat | 1 <= s <= 3 ensures Verdict(data, config) >= s <==> DataReaches(data, config, s) {
      VerdictReachesIff(data, config, s);
    }
    var first;
    match data {
      case Single(values) =>
        status, first := EvaluateSingle(values, config.thresholds);
        WorstIsUnique(KeyStatuses(values, config.thresholds), status, first);
      case Items(items) =>
        status, first := EvaluateList(items, config.thresholds);
        WorstIsUnique(Contributions(items, config.thresholds), status, first);
      case Containers(containers, maps) =>
        status, first := EvaluateContainers(containers, maps);
        WorstIsUnique(ContainerStatuses(containers, maps), status, first);
    }
    shouldAlert := status >= config.alertMinLevel;
  }
}
