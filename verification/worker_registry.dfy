/** The master's list of registered worker proxies: registration gated by a
    ping and idempotent by identity, liveness sweeps that drop the workers
    whose ping fails, and the choice of workers for a job. A ping is an
    oracle `alive` saying whether the proxy answers at that moment. */
module WorkerRegistry {
  import opened Common

  /** A worker proxy: the ICE identity that names the worker and the
      endpoint it is reached at. */
  datatype Handle = Handle(identity: string, endpoint: string)

  /** At most this many workers take part in one job. */
  const MaxWorkersToUseForAJob: int := 10

  /** No two registered proxies share an identity. */
  predicate UniqueIdentities(workers: seq<Handle>)
  {
    forall i, j :: 0 <= i < j < |workers| ==> workers[i].identity != workers[j].identity
  }

  predicate IsRegistered(workers: seq<Handle>, identity: string)
  {
    exists k :: 0 <= k < |workers| && workers[k].identity == identity
  }

  /** `a` is `b` with some elements left out, the rest in the same order. */
  ghost predicate SubsequenceOf(a: seq<Handle>, b: seq<Handle>)
    decreases |b|
  {
    if a == [] then true
    else if b == [] then false
    else if a[0] == b[0] then SubsequenceOf(a[1..], b[1..])
    else SubsequenceOf(a, b[1..])
  }

  /** Registers a proxy: a null proxy or one whose identity is already
      registered is ignored; otherwise it is pinged and appended on success
      and silently dropped on failure. */
  function RegisterWorker(workers: seq<Handle>, proxy: Option<Handle>, alive: Handle -> bool): (r: seq<Handle>)
    ensures proxy.None? ==> r == workers
    ensures proxy.Some? && IsRegistered(workers, proxy.value.identity) ==> r == workers
    ensures proxy.Some? && !IsRegistered(workers, proxy.value.identity) && !alive(proxy.value) ==> r == workers
    ensures proxy.Some? && !IsRegistered(workers, proxy.value.identity) && alive(proxy.value)
            ==> r == workers + [proxy.value]
    ensures UniqueIdentities(workers) ==> UniqueIdentities(r)
  {
    match proxy
    case None => workers
    case Some(p) =>
      if IsRegistered(workers, p.identity) then workers
      else if alive(p) then workers + [p]
      else workers
  }

  /** The liveness sweep: removes every worker whose ping fails and keeps
      the survivors in registration order. */
  function PruneDead(workers: seq<Handle>, alive: Handle -> bool): (live: seq<Handle>)
    ensures forall h :: h in live <==> h in workers && alive(h)
    ensures |live| <= |workers|
    ensures SubsequenceOf(live, workers)
    decreases |workers|
  {
    if workers == [] then []
    else
      var rest := PruneDead(workers[1..], alive);
      assert forall h :: h in workers <==> h == workers[0] || h in workers[1..];
      if alive(workers[0]) then
        assert ([workers[0]] + rest)[1..] == rest;
        [workers[0]] + rest
      else
        rest
  }

  /** The sweep keeps every copy of a live worker and no copy of a dead one,
      as `removeAll` does. */
  lemma {:induction false} PruneDeadCounts(workers: seq<Handle>, alive: Handle -> bool)
    ensures forall h :: multiset(PruneDead(workers, alive))[h] == (if alive(h) then multiset(workers)[h] else 0)
    decreases |workers|
  {
    if workers != [] {
      PruneDeadCounts(workers[1..], alive);
      assert workers == [workers[0]] + workers[1..];
      assert multiset(workers) == multiset{workers[0]} + multiset(workers[1..]);
      var rest := PruneDead(workers[1..], alive);
      if alive(workers[0]) {
        assert multiset([workers[0]] + rest) == multiset{workers[0]} + multiset(rest);
      }
    }
  }

  /** The sweep keeps identities unique. */
  lemma {:induction false} PruneKeepsUnique(workers: seq<Handle>, alive: Handle -> bool)
    requires UniqueIdentities(workers)
    ensures UniqueIdentities(PruneDead(workers, alive))
    decreases |workers|
  {
    if workers != [] {
      PruneKeepsUnique(workers[1..], alive);
      var rest := PruneDead(workers[1..], alive);
      forall h | h in rest
        ensures h.identity != workers[0].identity
      {
        var k :| 0 <= k < |workers[1..]| && workers[1..][k] == h;
        assert workers[k + 1] == h;
      }
    }
  }

  /** When every worker answers, the sweep changes nothing. */
  lemma {:induction false} PruneAllAlive(workers: seq<Handle>, alive: Handle -> bool)
    requires forall h :: h in workers ==> alive(h)
    ensures PruneDead(workers, alive) == workers
    decreases |workers|
  {
    if workers != [] {
      assert forall h :: h in workers[1..] ==> h in workers;
      PruneAllAlive(workers[1..], alive);
      assert workers == [workers[0]] + workers[1..];
    }
  }

  /** `getActiveWorkerCount`: sweeps the registry and reports how many
      workers remain. Returns the registry after the sweep and the count. */
  function GetActiveWorkerCount(workers: seq<Handle>, alive: Handle -> bool): (r: (seq<Handle>, nat))
    ensures r.0 == PruneDead(workers, alive)
    ensures r.1 == |r.0|
    ensures forall h :: h in r.0 <==> h in workers && alive(h)
  {
    var live := PruneDead(workers, alive);
    (live, |live|)
  }

  /** The outcome of `selectWorkersForTask`: the registry after its sweep and
      the workers chosen for the job. */
  datatype Selection = Selection(registry: seq<Handle>, selected: seq<Handle>)

  /** How many of `live` workers a request for `requested` engages. */
  function WorkersToEngage(requested: int, live: nat): (n: int)
    ensures live > 0 ==> 1 <= n <= live && n <= MaxWorkersToUseForAJob
    ensures live > 0 && 1 <= requested <= live && requested <= MaxWorkersToUseForAJob ==> n == requested
    ensures live > 0 && requested <= 0 ==> n == 1
    ensures requested >= live && live <= MaxWorkersToUseForAJob ==> n == live
    ensures requested >= MaxWorkersToUseForAJob && live >= MaxWorkersToUseForAJob ==> n == MaxWorkersToUseForAJob
  {
    Min(Min(Max(1, requested), live), MaxWorkersToUseForAJob)
  }

  /** Sweeps the registry, then takes the first
      min(max(1, requested), live, 10) live workers in registration order,
      or none when no worker is alive. */
  function SelectWorkersForTask(workers: seq<Handle>, requested: int, alive: Handle -> bool): (s: Selection)
    ensures s.registry == PruneDead(workers, alive)
    ensures s.selected == [] <==> (forall h :: h in workers ==> !alive(h))
    ensures s.selected != [] ==>
              |s.selected| == WorkersToEngage(requested, |s.registry|)
              && s.selected == s.registry[..|s.selected|]
    ensures |s.selected| <= MaxWorkersToUseForAJob
    ensures forall h :: h in s.selected ==> h in workers && alive(h)
  {
    var live := PruneDead(workers, alive);
    if live == [] then
      Selection(live, [])
    else
      assert live[0] in workers;
      Selection(live, live[..WorkersToEngage(requested, |live|)])
  }
}
