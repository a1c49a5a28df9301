/** One scheduler poll: probe, evaluate, store, then the alert engine. */
module HealthPoll {
  import opened Evaluator
  import opened Alerts

  /** What a health function did: raised or returned an error, or returned data. */
  datatype Probe = Broken | Answered(data: Data)

  /** The cache the dashboard reads; only the status is kept here. */
  class Store {
    var statuses: map<string, Status>

    constructor ()
      ensures statuses == map[]
    {
      statuses := map[];
    }
  }

  predicate Judged(probe: Probe, config: ServiceConfig) {
    probe.Answered? ==> Judgeable(probe.data, config)
  }

  function PollStatus(probe: Probe, config: ServiceConfig): Status
    requires Judged(probe, config)
  {
    if probe.Broken? then CRITICAL else Verdict(probe.data, config)
  }

  /**
    A broken probe is critical and always alerts. Data that cannot be judged raises out
    of the poll before anything is touched. Otherwise dashboard and engine move together.
  */
  method RunPoll(engine: AlertEngine, store: Store, service: string, probe: Probe, config: ServiceConfig, now: real)
    returns (raised: bool)
    requires engine.Valid() && store.statuses == engine.lastState
    modifies engine, store
    ensures engine.Valid() && store.statuses == engine.lastState
    ensures raised <==> !Judged(probe, config)
    ensures raised ==> engine.polls == old(engine.polls) && engine.events == old(engine.events)
                       && engine.sent == old(engine.sent) && store.statuses == old(store.statuses)
    ensures !raised ==>
              var status := PollStatus(probe, config);
              && engine.polls == old(engine.polls) +
                   [Poll(service, status, probe.Broken? || status >= config.alertMinLevel, now)]
              && store.statuses == old(store.statuses)[service := status]
    ensures probe.Broken? ==>
              !raised && store.statuses == old(store.statuses)[service := 3]
              && engine.polls == old(engine.polls) + [Poll(service, 3, true, now)]
    ensures probe.Answered? && !raised ==>
              && service in store.statuses
              && (forall s: nat :: 1 <= s <= 3 ==>
                    (store.statuses[service] >= s <==> DataReaches(probe.data, config, s)))
              && store.statuses == old(store.statuses)[service := store.statuses[service]]
              && engine.polls == old(engine.polls) +
                   [Poll(service, store.statuses[service], store.statuses[service] >= config.alertMinLevel, now)]
  {
    if probe.Broken? {
      store.statuses := store.statuses[service := CRITICAL];
      engine.CheckAndAlert(service, CRITICAL, true, now);
      return false;
    }
    if !Judgeable(probe.data, config) {
      return true;
    }
    var status, shouldAlert := Evaluate(probe.data, config);
    store.statuses := store.statuses[service := status];
    engine.CheckAndAlert(service, status, shouldAlert, now);
    return false;
  }
}
