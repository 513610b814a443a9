/** The manager's critical section, on the state the lifecycle steps speak about. */
module Manager {
  import opened Common
  import opened Languages
  import opened RegistryBuild
  import opened Resolver
  import Lifecycle

  class Manager {
    const defaults: RegistryData
    const cfg: map<string, ServerConfig>
    var current: map<string, nat>
    var table: seq<Lifecycle.Session>
    var stores: nat

    constructor (defaults: RegistryData, raw: map<string, ServerConfig>)
      ensures this.defaults == defaults && ConfigsIndexed(defaults, raw, raw.Keys, cfg)
      ensures current == map[] && table == [] && stores == 0
    {
      var indexed := IndexConfig(defaults, raw);
      this.defaults := defaults;
      this.cfg := indexed;
      current, table, stores := map[], [], 0;
    }

    /** The session for a configured language, new or current; none for an unknown one. */
    method Acquire(lang: string) returns (session: Option<nat>)
      modifies this
      ensures ConfigFor(defaults, cfg, lang).None? ==>
                session == None && current == old(current) && table == old(table) && stores == old(stores)
      ensures ConfigFor(defaults, cfg, lang).Some? ==>
                session.Some? && (current, table, stores, session.value)
                == Lifecycle.Looked(old(current), old(table), old(stores), CanonicalOr(defaults, lang))
    {
      var canonical := CanonicalOr(defaults, lang);
      if canonical !in cfg { return None; }
      if canonical in current && current[canonical] < |table| && !table[current[canonical]].dead {
        return Some(current[canonical]);
      }
      var store := stores;
      if canonical in current && current[canonical] < |table| {
        store := table[current[canonical]].store;
      } else {
        stores := stores + 1;
      }
      var x := |table|;
      table := table + [Lifecycle.Session(canonical, store, Lifecycle.Idle, false, false, false, false)];
      current := current[canonical := x];
      session := Some(x);
    }
  }
}
