/**
  The replicated registry of collection names. Ids are handed out in order and
  never given back; "default" is id 0 and is never stored.
 */
module Registry {
  import opened Basics

  const MAX_COLLECTIONS: nat := 1024

  datatype Registry = Registry(names: map<string, nat>, nextId: nat)

  function New(): Registry {
    Registry(map[], 1)
  }

  function Resolve(r: Registry, name: string): Option<nat> {
    if name == "default" then Some(0)
    else if name in r.names then Some(r.names[name])
    else None
  }

  /** The registry afterwards and the id of `name`, or no id when the limit is reached. */
  function Create(r: Registry, name: string): (Registry, Option<nat>) {
    if Resolve(r, name).Some? then (r, Resolve(r, name))
    else if r.nextId >= MAX_COLLECTIONS then (r, None)
    else (Registry(r.names[name := r.nextId], r.nextId + 1), Some(r.nextId))
  }

  function Remove(r: Registry, name: string): Registry {
    r.(names := r.names - {name})
  }

  /** Names have distinct ids, all handed out already, and none is the default's. */
  ghost predicate Ok(r: Registry) {
    && 1 <= r.nextId <= MAX_COLLECTIONS
    && "default" !in r.names
    && (forall n :: n in r.names ==> 1 <= r.names[n] < r.nextId)
    && (forall m, n :: m in r.names && n in r.names && r.names[m] == r.names[n] ==> m == n)
  }
}
