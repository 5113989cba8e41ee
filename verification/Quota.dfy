/**
 The shared byte counter (`src/limits.rs`): the sequential meaning of its three
 operations, and the lock-free implementation as interleaved atomic steps of any
 number of threads.
 */
module Quotas {
  import opened Options
  import opened Sums

  const U64_MAX: nat := 0xFFFF_FFFF_FFFF_FFFF

  /** The counter as a caller that is alone on it sees it. */
  datatype Quota = Quota(limit: nat, used: nat) {

    /** `try_charge` succeeds exactly when the new total fits both the limit and the word. */
    predicate Fits(bytes: nat) {
      used + bytes <= U64_MAX && used + bytes <= limit
    }

    function Charge(bytes: nat): Quota {
      this.(used := used + bytes)
    }

    /** `release` saturates at zero. */
    function Release(bytes: nat): Quota {
      this.(used := if bytes <= used then used - bytes else 0)
    }
  }

  /** Where a thread is inside `try_charge` or `release`. */
  datatype Thread =
    | ChargeStart(bytes: nat)
    | ChargeLimited(bytes: nat, limit: nat)
    | ChargeReady(bytes: nat, limit: nat, seen: nat)
    | ReleaseStart(bytes: nat)
    | ReleaseReady(bytes: nat, seen: nat)

  /**
   The two atomics, the threads inside an operation, and what has been counted so
   far. `limits` holds every value the ceiling has ever had: a relaxed load may
   return any of them.
   */
  datatype Machine = Machine(
    limit: nat, limits: set<nat>, used: nat, threads: map<nat, Thread>,
    charged: nat, forced: nat, released: nat)

  /** One atomic step; the values relaxed loads return are part of the event. */
  datatype Event =
    | CallTryCharge(t: nat, bytes: nat)
    | LoadLimit(t: nat, value: nat)
    | LoadUsed(t: nat, value: nat)
    | RefuseCharge(t: nat)
    | CasOk(t: nat)
    | CasFail(t: nat, actual: nat)
    | ForceCharge(bytes: nat)
    | CallRelease(t: nat, bytes: nat)
    | SetLimit(value: nat)

  function Start(limit: nat): Machine {
    Machine(limit, {limit}, 0, map[], 0, 0, 0)
  }

  /** What the threads inside `release` have still to give back. */
  function Owing(threads: map<nat, Thread>): map<nat, nat> {
    map t | t in threads ::
      if threads[t].ReleaseStart? || threads[t].ReleaseReady? then threads[t].bytes else 0
  }

  /**
   The step `e` from `m`, or `None` when it is not enabled. A compare-and-swap may
   fail whatever `used` is (spuriously), reporting any earlier value. The callers'
   side: nobody releases more than is outstanding, and a forced charge is memory
   already held, so it fits the word.
   */
  ghost function Fire(m: Machine, e: Event): Option<Machine> {
    match e
    case CallTryCharge(t, bytes) =>
      if t in m.threads then None else Some(m.(threads := m.threads[t := ChargeStart(bytes)]))
    case LoadLimit(t, value) =>
      if t in m.threads && m.threads[t].ChargeStart? && value in m.limits then
        Some(m.(threads := m.threads[t := ChargeLimited(m.threads[t].bytes, value)]))
      else None
    case LoadUsed(t, value) =>
      if t !in m.threads then None
      else (match m.threads[t]
            case ChargeLimited(bytes, limit) =>
              Some(m.(threads := m.threads[t := ChargeReady(bytes, limit, value)]))
            case ReleaseStart(bytes) =>
              Some(m.(threads := m.threads[t := ReleaseReady(bytes, value)]))
            case _ => None)
    case RefuseCharge(t) =>
      if t in m.threads && m.threads[t].ChargeReady?
         && !Quota(m.threads[t].limit, m.threads[t].seen).Fits(m.threads[t].bytes) then
        Some(m.(threads := m.threads - {t}))
      else None
    case CasOk(t) =>
      if t !in m.threads then None
      else (match m.threads[t]
            case ChargeReady(bytes, limit, seen) =>
              if seen == m.used && Quota(limit, seen).Fits(bytes) then
                Some(m.(used := seen + bytes, threads := m.threads - {t}, charged := m.charged + bytes))
              else None
            case ReleaseReady(bytes, seen) =>
              if seen == m.used then
                Some(m.(used := Quota(0, seen).Release(bytes).used, threads := m.threads - {t},
                        released := m.released + bytes))
              else None
            case _ => None)
    case CasFail(t, actual) =>
      if t !in m.threads then None
      else (match m.threads[t]
            case ChargeReady(bytes, limit, seen) =>
              if Quota(limit, seen).Fits(bytes) then
                Some(m.(threads := m.threads[t := ChargeReady(bytes, limit, actual)]))
              else None
            case ReleaseReady(bytes, _) =>
              Some(m.(threads := m.threads[t := ReleaseReady(bytes, actual)]))
            case _ => None)
    case ForceCharge(bytes) =>
      if m.used + bytes <= U64_MAX then Some(m.(used := m.used + bytes, forced := m.forced + bytes))
      else None
    case CallRelease(t, bytes) =>
      if t in m.threads || Total(Owing(m.threads)) + bytes > m.used then None
      else Some(m.(threads := m.threads[t := ReleaseStart(bytes)]))
    case SetLimit(value) => Some(m.(limit := value, limits := m.limits + {value}))
  }

  /** Some ceiling in force at some time bounds what was not forced. */
  ghost predicate WithinSomeLimit(m: Machine) {
    exists l :: l in m.limits && m.used <= l + m.forced
  }

  ghost predicate Inv(m: Machine) {
    && m.used + m.released == m.charged + m.forced
    && m.used <= U64_MAX
    && Total(Owing(m.threads)) <= m.used
    && WithinSomeLimit(m)
    && forall t :: t in m.threads && (m.threads[t].ChargeLimited? || m.threads[t].ChargeReady?) ==>
                     m.threads[t].limit in m.limits
  }

  /** Entering, leaving or moving within an operation changes only that thread's debt. */
  lemma OwingPut(threads: map<nat, Thread>, t: nat, th: Thread)
    ensures Total(Owing(threads[t := th])) ==
            (if th.ReleaseStart? || th.ReleaseReady? then th.bytes else 0) + Total(Owing(threads) - {t})
    ensures Owing(threads - {t}) == Owing(threads) - {t}
    ensures t in threads ==> Total(Owing(threads)) == Owing(threads)[t] + Total(Owing(threads) - {t})
    ensures t !in threads ==> Owing(threads) - {t} == Owing(threads)
  {
    var v := if th.ReleaseStart? || th.ReleaseReady? then th.bytes else 0;
    assert Owing(threads[t := th]) == Owing(threads)[t := v];
    TotalPut(Owing(threads), t, v);
    if t in threads { TotalRemove(Owing(threads), t); }
  }

  /** A thread entering, loading, retrying or giving up leaves the counts and the ceilings alone. */
  lemma ThreadKeepsInv(m: Machine, e: Event)
    requires Inv(m) && Fire(m, e).Some? && !e.CasOk? && !e.ForceCharge? && !e.SetLimit?
    ensures Inv(Fire(m, e).value)
  {
    var m' := Fire(m, e).value;
    var l :| l in m.limits && m.used <= l + m.forced;
    assert l in m'.limits;
    OwingPut(m.threads, e.t, if e.RefuseCharge? then m.threads[e.t] else m'.threads[e.t]);
  }

  lemma CasKeepsInv(m: Machine, t: nat)
    requires Inv(m) && Fire(m, CasOk(t)).Some?
    ensures Inv(Fire(m, CasOk(t)).value)
  {
    var m' := Fire(m, CasOk(t)).value;
    OwingPut(m.threads, t, m.threads[t]);
    if m.threads[t].ChargeReady? {
      assert m.threads[t].limit in m'.limits && m'.used <= m.threads[t].limit + m'.forced;
    } else {
      var l :| l in m.limits && m.used <= l + m.forced;
      assert l in m'.limits;
    }
  }

  lemma StepKeepsInv(m: Machine, e: Event)
    requires Inv(m) && Fire(m, e).Some?
    ensures Inv(Fire(m, e).value)
  {
    var m' := Fire(m, e).value;
    match e
    case CasOk(t) => CasKeepsInv(m, t);
    case ForceCharge(_) =>
      var l :| l in m.limits && m.used <= l + m.forced;
      assert l in m'.limits && m'.used <= l + m'.forced;
    case SetLimit(_) =>
      var l :| l in m.limits && m.used <= l + m.forced;
      assert l in m'.limits;
    case _ => ThreadKeepsInv(m, e);
  }

  /** The machine after the events `es`, all enabled in turn. */
  ghost function Run(m: Machine, es: seq<Event>): Option<Machine> {
    if es == [] then Some(m)
    else match Run(m, es[..|es| - 1])
      case None => None
      case Some(mid) => Fire(mid, es[|es| - 1])
  }

  /**
   Every interleaving: `used` is exactly successful charges plus forced ones minus
   releases, releases never saturate, and only forced charges go past every ceiling
   there has been.
   */
  lemma {:induction false} EveryInterleaving(limit: nat, es: seq<Event>)
    requires Run(Start(limit), es).Some?
    ensures var m := Run(Start(limit), es).value;
            m.used == m.charged + m.forced - m.released && WithinSomeLimit(m) && Inv(m)
  {
    if es == [] {
      assert Owing(map[]) == map[];
      assert limit in Start(limit).limits;
    } else {
      EveryInterleaving(limit, es[..|es| - 1]);
      StepKeepsInv(Run(Start(limit), es[..|es| - 1]).value, es[|es| - 1]);
    }
  }

  /** With a constant ceiling and no forced charge, `used` never goes over it. */
  lemma {:induction false} ConstantLimitIsNeverExceeded(limit: nat, es: seq<Event>)
    requires Run(Start(limit), es).Some?
    requires forall e :: e in es ==> !e.SetLimit? && !e.ForceCharge?
    ensures var m := Run(Start(limit), es).value;
            m.used <= limit && m.used == m.charged - m.released
  {
    EveryInterleaving(limit, es);
    ConstantLimits(limit, es);
  }

  lemma {:induction false} ConstantLimits(limit: nat, es: seq<Event>)
    requires Run(Start(limit), es).Some?
    requires forall e :: e in es ==> !e.SetLimit? && !e.ForceCharge?
    ensures Run(Start(limit), es).value.limits == {limit} && Run(Start(limit), es).value.forced == 0
  {
    if es != [] {
      ConstantLimits(limit, es[..|es| - 1]);
      assert es[|es| - 1] in es;
    }
  }

  /**
   The retry loops are linearizable: each step leaves the counter alone, or is one
   whole sequential operation on it, under a ceiling that was in force.
   */
  lemma StepIsStutterOrAtomic(m: Machine, e: Event)
    requires Inv(m) && Fire(m, e).Some?
    ensures
      var m' := Fire(m, e).value;
      || m'.used == m.used
      || (e.CasOk? && m.threads[e.t].ChargeReady?
          && m.threads[e.t].limit in m.limits
          && Quota(m.threads[e.t].limit, m.used).Fits(m.threads[e.t].bytes)
          && m'.used == Quota(m.limit, m.used).Charge(m.threads[e.t].bytes).used)
      || (e.CasOk? && m.threads[e.t].ReleaseReady?
          && m.threads[e.t].bytes <= m.used
          && m'.used == Quota(m.limit, m.used).Release(m.threads[e.t].bytes).used)
      || (e.ForceCharge? && m'.used == Quota(m.limit, m.used).Charge(e.bytes).used)
  {
    if e.CasOk? {
      OwingPut(m.threads, e.t, m.threads[e.t]);
    }
  }
}
