/**
  The limiter as the proxy runs it: a mutable per-IP map whose slices are compacted in
  place. Each method body is one critical section of the mutex, and `now` is the clock
  reading taken inside it, so readings never decrease from call to call.
*/
module RateLimiter {
  import opened Seqs
  import opened RateLimit

  /** One recorded failed attempt; the log of these is everything the limiter is ever told. */
  datatype Failure = Failure(ip: string, at: nat)

  function FailuresOf(log: seq<Failure>, ip: string): seq<nat> {
    if log == [] then []
    else FailuresOf(Init(log), ip) + if Last(log).ip == ip then [Last(log).at] else []
  }

  predicate Ordered(log: seq<Failure>) {
    forall i, j :: 0 <= i <= j < |log| ==> log[i].at <= log[j].at
  }

  predicate Reached(log: seq<Failure>, now: nat) {
    forall i :: 0 <= i < |log| ==> log[i].at <= now
  }

  /** What the full history of one IP says, and nothing of any other IP. */
  ghost predicate Refused(c: Config, log: seq<Failure>, ip: string, now: nat) {
    LockedAt(c, Counted(c, FailuresOf(log, ip)), now)
  }

  lemma {:induction false} ProjectionIsOrdered(log: seq<Failure>, ip: string, now: nat)
    requires Ordered(log) && Reached(log, now)
    ensures Sorted(FailuresOf(log, ip)) && NoneAfter(FailuresOf(log, ip), now)
  {
    if log != [] {
      ProjectionIsOrdered(Init(log), ip, Last(log).at);
    }
  }

  lemma {:induction false} FailuresOfAppend(log: seq<Failure>, f: Failure, ip: string)
    ensures FailuresOf(log + [f], ip)
              == if f.ip == ip then FailuresOf(log, ip) + [f.at] else FailuresOf(log, ip)
  {
    assert Init(log + [f]) == log;
  }

  /** A failure moves the slot of its own IP and no other. */
  lemma {:induction false} EachSlotStep(c: Config, log: seq<Failure>, f: Failure)
    ensures forall ip :: SlotAfter(c, FailuresOf(log + [f], ip))
              == if ip == f.ip then Record(c, SlotAfter(c, FailuresOf(log, ip)), f.at)
                 else SlotAfter(c, FailuresOf(log, ip))
  {
    forall ip
      ensures SlotAfter(c, FailuresOf(log + [f], ip))
           == if ip == f.ip then Record(c, SlotAfter(c, FailuresOf(log, ip)), f.at)
              else SlotAfter(c, FailuresOf(log, ip))
    {
      FailuresOfAppend(log, f, ip);
      SlotStep(c, FailuresOf(log, ip), f.at);
    }
  }

  lemma {:induction false} StoredLockIsRefusal(c: Config, log: seq<Failure>, ip: string, now: nat)
    requires Ordered(log) && Reached(log, now)
    ensures now < SlotAfter(c, FailuresOf(log, ip)).lockoutUntil <==> Refused(c, log, ip, now)
  {
    ProjectionIsOrdered(log, ip, now);
    RefusedExactlyWhenLocked(c, FailuresOf(log, ip), now);
  }

  /** A slice over a backing array, with the end of the last lockout. */
  class IpState {
    var buf: array<nat>
    var len: nat
    var lockoutUntil: int

    ghost predicate Valid()
      reads this
    {
      len <= buf.Length
    }

    ghost function View(): Slot
      requires Valid()
      reads this, buf
    {
      Slot(buf[..len], lockoutUntil)
    }

    constructor ()
      ensures Valid() && View() == FRESH && fresh(buf)
    {
      buf := new nat[0];
      len := 0;
      lockoutUntil := 0;
    }

    /** Compacts the slice into its own backing array: the write index never passes the read index. */
    method Prune(cutoff: int)
      requires Valid()
      modifies this`len, buf
      ensures Valid() && View() == Slot(After(old(View().failures), cutoff), old(lockoutUntil))
    {
      var n, kept := len, 0;
      ghost var was := buf[..n];
      for i := 0 to n
        invariant kept <= i && len == n
        invariant buf[..kept] == After(was[..i], cutoff)
        invariant forall k :: i <= k < n ==> buf[k] == was[k]
        invariant lockoutUntil == old(lockoutUntil)
      {
        assert Init(was[..i + 1]) == was[..i];
        if buf[i] > cutoff {
          buf[kept] := buf[i];
          kept := kept + 1;
        }
      }
      assert was[..n] == was;
      len := kept;
    }

    /** Go's append: in place while the backing array has room, else into a larger copy. */
    method Append(t: nat)
      requires Valid()
      modifies this`buf, this`len, buf
      ensures Valid() && View() == Slot(old(View().failures) + [t], old(lockoutUntil))
      ensures buf == old(buf) || fresh(buf)
    {
      if len == buf.Length {
        var larger := new nat[2 * len + 1];
        forall i | 0 <= i < len {
          larger[i] := buf[i];
        }
        buf := larger;
      }
      buf[len] := t;
      len := len + 1;
    }

    /** A failure while locked is dropped; any other is counted, and may start a lockout. */
    method RecordAt(c: Config, now: nat)
      requires Valid()
      modifies this, buf
      ensures Valid() && View() == Record(c, old(View()), now)
      ensures buf == old(buf) || fresh(buf)
    {
      if now < lockoutUntil {
        return;
      }
      Prune(now - c.window);
      Append(now);
      if len >= c.maxAttempts {
        lockoutUntil := now + c.lockout;
      }
    }
  }

  class RateLimiter {
    const config: Config
    var state: map<string, IpState>
    ghost var log: seq<Failure>
    ghost var Repr: set<object>

    ghost predicate Footprint()
      reads this, Repr
    {
      && this in Repr
      && (forall ip :: ip in state ==> state[ip] in Repr && state[ip].buf in Repr && state[ip].Valid())
      && forall ip, other :: ip in state && other in state && ip != other ==>
           state[ip] != state[other] && state[ip].buf != state[other].buf
    }

    ghost function SlotOf(ip: string): Slot
      requires Footprint()
      reads this, Repr
    {
      if ip in state then state[ip].View() else FRESH
    }

    /** Every IP's pruned slot is the one its own recorded failures lead to. */
    ghost predicate Valid()
      reads this, Repr
    {
      && Footprint() && Ordered(log)
      && forall ip :: SlotOf(ip) == SlotAfter(config, FailuresOf(log, ip))
    }

    constructor (c: Config)
      ensures Valid() && fresh(Repr) && config == c && log == []
    {
      config := c;
      state := map[];
      log := [];
      Repr := {this};
    }

    /** Answers from the pruned slot what the full history of this IP alone answers. */
    method CheckLockout(ip: string, now: nat) returns (allowed: bool, retryAfter: int)
      requires Valid() && Reached(log, now)
      ensures allowed <==> !Refused(config, log, ip, now)
      ensures allowed ==> retryAfter == 0
      ensures !allowed ==> retryAfter > 0
      ensures !allowed ==> forall t: nat {:trigger Refused(config, log, ip, t)} ::
                now <= t ==> (Refused(config, log, ip, t) <==> t < now + retryAfter)
    {
      assert SlotOf(ip) == SlotAfter(config, FailuresOf(log, ip));
      forall t: nat | now <= t ensures t < SlotOf(ip).lockoutUntil <==> Refused(config, log, ip, t) {
        StoredLockIsRefusal(config, log, ip, t);
      }
      if ip !in state {
        return true, 0;
      }
      var st := state[ip];
      if now < st.lockoutUntil {
        return false, st.lockoutUntil - now;
      }
      return true, 0;
    }

    /** The slot of an IP, added empty if the IP is new. */
    method StateFor(ip: string) returns (st: IpState)
      requires Valid()
      modifies this
      ensures Valid() && fresh(Repr - old(Repr)) && log == old(log)
      ensures ip in state && state[ip] == st
      ensures forall other :: SlotOf(other) == old(SlotOf(other))
    {
      if ip !in state {
        st := new IpState();
        state := state[ip := st];
        Repr := Repr + {st, st.buf};
        assert forall other :: SlotOf(other) == old(SlotOf(other));
      }
      st := state[ip];
    }

    method RecordFailure(ip: string, now: nat)
      requires Valid() && Reached(log, now)
      modifies Repr
      ensures Valid() && fresh(Repr - old(Repr))
      ensures log == old(log) + [Failure(ip, now)]
    {
      var st := StateFor(ip);
      EachSlotStep(config, log, Failure(ip, now));
      label found:
      st.RecordAt(config, now);
      Repr := Repr + {st.buf};
      log := log + [Failure(ip, now)];
      assert Footprint();
      forall other ensures SlotOf(other) == SlotAfter(config, FailuresOf(log, other)) {
        assert other != ip ==> SlotOf(other) == old@found(SlotOf(other));
      }
    }

    /** The guard in front of the handler: refuse with the least whole-second wait, or pass on. */
    method Middleware(ip: string, now: nat) returns (refused: bool, retryAfterSeconds: int)
      requires Valid() && Reached(log, now)
      ensures refused <==> Refused(config, log, ip, now)
      ensures refused ==> forall w: nat ::
                Refused(config, log, ip, Waited(now, w)) <==> w < retryAfterSeconds
    {
      var allowed, retryAfter := CheckLockout(ip, now);
      refused, retryAfterSeconds := !allowed, RetryAfter(retryAfter);
      if refused {
        forall w: nat
          ensures Refused(config, log, ip, Waited(now, w)) <==> w < retryAfterSeconds
        {
          WaitCovers(retryAfter, w);
        }
      }
    }
  }

  /** So many seconds later, in nanoseconds. */
  function Waited(now: nat, seconds: nat): (later: nat)
    ensures later == now + seconds * 1_000_000_000
  {
    now + seconds * SECOND
  }

  // ---------------------------------------------------------------- the handler

  datatype Header = Missing | BadBase64 | NoColon | Basic(username: string, password: string)
  datatype Bind = Accepted | Rejected | Failed

  /** The status of /auth/verify, given what the directory answers to the bind. */
  function Verdict(header: Header, bind: Bind): int {
    match header
    case Missing => 401
    case BadBase64 | NoColon => 400
    case Basic(_, _) =>
      match bind
      case Accepted => 200
      case Rejected => 401
      case Failed => 500
  }

  /**
    One request served without another in between. `bind` is the directory's answer;
    `checked` and `recorded` are the two clock readings, each under its own lock.
  */
  method Serve(limiter: RateLimiter, ip: string, header: Header, bind: Bind, checked: nat, recorded: nat)
    returns (status: int, retryAfterSeconds: int)
    requires limiter.Valid() && Reached(limiter.log, checked) && checked <= recorded
    modifies limiter.Repr
    ensures limiter.Valid() && fresh(limiter.Repr - old(limiter.Repr))
    ensures status == if Refused(limiter.config, old(limiter.log), ip, checked) then 429 else Verdict(header, bind)
    ensures limiter.log == old(limiter.log) + if status == 401 then [Failure(ip, recorded)] else []
    ensures var refused := Refused(limiter.config, old(limiter.log), ip, checked);
            && (limiter.log == old(limiter.log) + [Failure(ip, recorded)] <==>
                  !refused && (header == Missing || (header.Basic? && bind == Rejected)))
            && (limiter.log == old(limiter.log) <==>
                  refused || header in {BadBase64, NoColon} || (header.Basic? && bind in {Accepted, Failed}))
            && (status == 200 <==> !refused && header.Basic? && bind == Accepted)
            && (status == 429 <==> refused)
    ensures limiter.log == old(limiter.log) ==>
              forall any :: limiter.SlotOf(any) == SlotAfter(limiter.config, FailuresOf(old(limiter.log), any))
    ensures status == 429 ==> forall w: nat ::
              Refused(limiter.config, limiter.log, ip, Waited(checked, w)) <==> w < retryAfterSeconds
  {
    var refused;
    refused, retryAfterSeconds := limiter.Middleware(ip, checked);
    if refused {
      return 429, retryAfterSeconds;
    }
    status := HandleVerify(limiter, ip, header, bind, recorded);
  }

  /** Failures, and only failures, reach the limiter; with no limiter configured nothing does. */
  method HandleVerify(limiter: RateLimiter?, ip: string, header: Header, bind: Bind, now: nat)
    returns (status: int)
    requires limiter != null ==> limiter.Valid() && Reached(limiter.log, now)
    modifies if limiter == null then {} else limiter.Repr
    ensures status == Verdict(header, bind)
    ensures status == 401 <==> header == Missing || (header.Basic? && bind == Rejected)
    ensures status == 200 <==> header.Basic? && bind == Accepted
    ensures status == 500 <==> header.Basic? && bind == Failed
    ensures status == 400 <==> header in {BadBase64, NoColon}
    ensures limiter != null ==> limiter.Valid() && fresh(limiter.Repr - old(limiter.Repr))
    ensures limiter != null ==>
              limiter.log == old(limiter.log) + if status == 401 then [Failure(ip, now)] else []
  {
    if header.Missing? {
      if limiter != null {
        limiter.RecordFailure(ip, now);
      }
      return 401;
    }
    if header.BadBase64? {
      return 400;
    }
    if header.NoColon? {
      return 400;
    }
    if bind.Failed? {
      return 500;
    }
    if bind.Rejected? {
      if limiter != null {
        limiter.RecordFailure(ip, now);
      }
      return 401;
    }
    return 200;
  }
}
