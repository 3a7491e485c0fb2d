/** The IceGrid registry's adapter cache (`IceGrid::AdapterCache`): a map
    from adapter id to either a server adapter entry or a replica group
    entry. A replica group keeps the ordered list of its server adapters, a
    round-robin cursor and its load-balancing policy.

    Entries are values here: where the C++ code mutates a replica group
    behind a shared handle, the model returns the updated cache. A replica
    list holds copies of the server adapter entries, which never change once
    created. */
module AdapterCache {
  import opened Wrappers
  import Text

  datatype LoadSample = LoadSample1 | LoadSample5 | LoadSample15

  /** The load-balancing policy of a replica group descriptor. `nReplicas`
      and `loadSample` are the descriptor's strings, parsed by `update`. */
  datatype LoadBalancingPolicy =
    | RoundRobin(nReplicas: string)
    | Adaptive(nReplicas: string, loadSample: string)
    | Ordered(nReplicas: string)
    | Random(nReplicas: string)

  datatype ServerAdapterEntry = ServerAdapterEntry(
    id: string,
    application: string,
    replicaGroupId: string,
    priority: int)

  datatype ReplicaGroupEntry = ReplicaGroupEntry(
    id: string,
    application: string,
    replicas: seq<ServerAdapterEntry>,
    lastReplica: nat,
    loadBalancing: LoadBalancingPolicy,
    loadBalancingNReplicas: int,
    loadSample: LoadSample)

  datatype AdapterEntry = ServerAdapter(adapter: ServerAdapterEntry) | ReplicaGroup(group: ReplicaGroupEntry) {
    function Id(): string {
      match this
      case ServerAdapter(a) => a.id
      case ReplicaGroup(g) => g.id
    }
  }

  type Cache = map<string, AdapterEntry>

  datatype AdapterDescriptor = AdapterDescriptor(id: string, replicaGroupId: string, priority: string)

  datatype ReplicaGroupDescriptor = ReplicaGroupDescriptor(id: string, loadBalancing: LoadBalancingPolicy)

  datatype AdapterNotExistException = AdapterNotExistException(id: string)

  // ---------------------------------------------------------------------
  // Invariants

  /** The round-robin cursor is 0 for an empty group and an index otherwise. */
  predicate CursorInRange(g: ReplicaGroupEntry) {
    if g.replicas == [] then g.lastReplica == 0 else g.lastReplica < |g.replicas|
  }

  predicate DistinctIds(rs: seq<ServerAdapterEntry>) {
    forall i, j :: 0 <= i < j < |rs| ==> rs[i].id != rs[j].id
  }

  /** `a` is registered in `cache` as a server adapter of group `g`. */
  predicate Registered(cache: Cache, a: ServerAdapterEntry, g: string) {
    && a.id in cache
    && cache[a.id] == ServerAdapter(a)
    && a.replicaGroupId == g
    && g != ""
  }

  /** `a` appears in the replica list of the group it names. */
  predicate Listed(cache: Cache, a: ServerAdapterEntry) {
    && a.replicaGroupId in cache
    && cache[a.replicaGroupId].ReplicaGroup?
    && a in cache[a.replicaGroupId].group.replicas
  }

  /** Each entry is stored under its own id; each group's cursor is in range;
      a group lists exactly the registered server adapters naming it, each
      once. */
  predicate Consistent(cache: Cache) {
    && (forall k :: k in cache ==> cache[k].Id() == k)
    && (forall k :: k in cache && cache[k].ReplicaGroup? ==>
          CursorInRange(cache[k].group) && DistinctIds(cache[k].group.replicas))
    && (forall k, i :: k in cache && cache[k].ReplicaGroup? && 0 <= i < |cache[k].group.replicas| ==>
          Registered(cache, cache[k].group.replicas[i], k))
    && (forall k :: k in cache && cache[k].ServerAdapter? && cache[k].adapter.replicaGroupId != "" ==>
          Listed(cache, cache[k].adapter))
  }

  // ---------------------------------------------------------------------
  // Entries

  /** `istringstream is(desc.priority); int priority = 0; is >> priority;` */
  function ParsePriority(s: string): (p: int)
    ensures Text.INT_MIN <= p <= Text.INT_MAX
    ensures Text.ExtractInt(s).None? ==> p == 0
  {
    Text.ExtractInt(s).GetOr(0)
  }

  /** The load sample named by an adaptive policy; unknown names mean 1. */
  function SampleOf(name: string): (r: LoadSample)
    ensures r == LoadSample5 <==> name == "5"
    ensures r == LoadSample15 <==> name == "15"
  {
    if name == "1" then LoadSample1
    else if name == "5" then LoadSample5
    else if name == "15" then LoadSample15
    else LoadSample1
  }

  /** `ReplicaGroupEntry::update`: store the policy, normalise its replica
      count (unparsable means 0, negative means 1) and, for an adaptive
      policy, its load sample. Replicas and cursor are untouched. */
  function Update(g: ReplicaGroupEntry, policy: LoadBalancingPolicy): (r: ReplicaGroupEntry)
    ensures r.loadBalancing == policy
    ensures r.loadBalancingNReplicas >= 0
    ensures Text.ExtractInt(policy.nReplicas).None? ==> r.loadBalancingNReplicas == 0
    ensures Text.ExtractInt(policy.nReplicas).Some? ==>
      var n := Text.ExtractInt(policy.nReplicas).value;
      (n < 0 ==> r.loadBalancingNReplicas == 1) && (n >= 0 ==> r.loadBalancingNReplicas == n)
    ensures policy.Adaptive? ==> r.loadSample == SampleOf(policy.loadSample)
    ensures !policy.Adaptive? ==> r.loadSample == g.loadSample
    ensures r.id == g.id && r.application == g.application
    ensures r.replicas == g.replicas && r.lastReplica == g.lastReplica
  {
    var n := Text.ExtractInt(policy.nReplicas).GetOr(0);
    var sample := if policy.Adaptive? then SampleOf(policy.loadSample) else g.loadSample;
    g.(loadBalancing := policy, loadBalancingNReplicas := if n < 0 then 1 else n, loadSample := sample)
  }

  /** The `ReplicaGroupEntry` constructor: no replicas, cursor 0, then
      `update(policy)`. The load sample before the first adaptive update is
      never read; the model starts it at LoadSample1. */
  function NewReplicaGroup(desc: ReplicaGroupDescriptor, application: string): (g: ReplicaGroupEntry)
    ensures g.id == desc.id && g.replicas == [] && g.lastReplica == 0 && CursorInRange(g)
    ensures g.loadBalancing == desc.loadBalancing
  {
    Update(ReplicaGroupEntry(desc.id, application, [], 0, desc.loadBalancing, 0, LoadSample1), desc.loadBalancing)
  }

  /** `ReplicaGroupEntry::addReplica`: append at the end. */
  function AddReplica(g: ReplicaGroupEntry, replicaId: string, adapter: ServerAdapterEntry): (r: ReplicaGroupEntry)
    ensures r.replicas == g.replicas + [adapter]
    ensures CursorInRange(g) ==> CursorInRange(r)
    ensures r.(replicas := g.replicas) == g
  {
    g.(replicas := g.replicas + [adapter])
  }

  /** Index of the first replica with id `replicaId`. */
  function FirstReplica(rs: seq<ServerAdapterEntry>, replicaId: string): (r: Option<nat>)
    ensures r.Some? ==> r.value < |rs| && rs[r.value].id == replicaId
    ensures r.Some? ==> forall j :: 0 <= j < r.value ==> rs[j].id != replicaId
    ensures r.None? ==> forall j :: 0 <= j < |rs| ==> rs[j].id != replicaId
  {
    if rs == [] then None
    else if rs[0].id == replicaId then Some(0)
    else match FirstReplica(rs[1..], replicaId)
      case None => None
      case Some(i) => Some(i + 1)
  }

  /** `ReplicaGroupEntry::removeReplica`: drop the first replica with the
      given id and bring the cursor back within bounds; an unknown id
      changes nothing. */
  function RemoveReplica(g: ReplicaGroupEntry, replicaId: string): (r: ReplicaGroupEntry)
    ensures FirstReplica(g.replicas, replicaId).None? ==> r == g
    ensures FirstReplica(g.replicas, replicaId).Some? ==>
      var i := FirstReplica(g.replicas, replicaId).value;
      r.replicas == g.replicas[..i] + g.replicas[i + 1..] && |r.replicas| == |g.replicas| - 1
    ensures FirstReplica(g.replicas, replicaId).Some? ==> CursorInRange(r)
    ensures r.id == g.id && r.application == g.application && r.loadBalancing == g.loadBalancing
    ensures r.loadBalancingNReplicas == g.loadBalancingNReplicas && r.loadSample == g.loadSample
  {
    match FirstReplica(g.replicas, replicaId)
    case None => g
    case Some(i) =>
      var rs := g.replicas[..i] + g.replicas[i + 1..];
      g.(replicas := rs, lastReplica := if rs == [] then 0 else g.lastReplica % |rs|)
  }

  // ---------------------------------------------------------------------
  // The cache

  /** `AdapterCache::addServerAdapter`. The caller guarantees the id is new
      and that a named replica group exists (both are asserts in the code). */
  function AddServerAdapter(cache: Cache, desc: AdapterDescriptor, application: string)
    : (r: (Cache, ServerAdapterEntry))
    requires desc.id !in cache
    requires desc.replicaGroupId != "" ==>
      desc.replicaGroupId in cache && cache[desc.replicaGroupId].ReplicaGroup?
    ensures r.1 == ServerAdapterEntry(desc.id, application, desc.replicaGroupId, ParsePriority(desc.priority))
    ensures r.0.Keys == cache.Keys + {desc.id}
    ensures r.0[desc.id] == ServerAdapter(r.1)
    ensures desc.replicaGroupId != "" ==>
      r.0[desc.replicaGroupId] == ReplicaGroup(AddReplica(cache[desc.replicaGroupId].group, desc.id, r.1))
    ensures forall k :: k in cache && k != desc.replicaGroupId ==> r.0[k] == cache[k]
  {
    var entry := ServerAdapterEntry(desc.id, application, desc.replicaGroupId, ParsePriority(desc.priority));
    var added := cache[desc.id := ServerAdapter(entry)];
    if desc.replicaGroupId == "" then (added, entry)
    else
      var g := cache[desc.replicaGroupId].group;
      (added[desc.replicaGroupId := ReplicaGroup(AddReplica(g, desc.id, entry))], entry)
  }

  /** `AdapterCache::addReplicaGroup`. */
  function AddReplicaGroup(cache: Cache, desc: ReplicaGroupDescriptor, application: string)
    : (r: (Cache, ReplicaGroupEntry))
    requires desc.id !in cache
    ensures r.1 == NewReplicaGroup(desc, application)
    ensures r.0.Keys == cache.Keys + {desc.id}
    ensures r.0[desc.id] == ReplicaGroup(r.1)
    ensures forall k :: k in cache ==> r.0[k] == cache[k]
  {
    var entry := NewReplicaGroup(desc, application);
    (cache[desc.id := ReplicaGroup(entry)], entry)
  }

  /** `AdapterCache::get`. */
  function Get(cache: Cache, id: string): (r: Result<AdapterEntry, AdapterNotExistException>)
    ensures r.Ok? <==> id in cache
    ensures r.Ok? ==> r.value == cache[id]
    ensures r.Err? ==> r.error == AdapterNotExistException(id)
  {
    if id in cache then Ok(cache[id]) else Err(AdapterNotExistException(id))
  }

  /** `AdapterCache::getServerAdapter`: a replica group under that id is
      "not there" as well. */
  function GetServerAdapter(cache: Cache, id: string): (r: Result<ServerAdapterEntry, AdapterNotExistException>)
    ensures r.Ok? <==> id in cache && cache[id].ServerAdapter?
    ensures r.Ok? ==> cache[id] == ServerAdapter(r.value)
    ensures r.Err? ==> r.error == AdapterNotExistException(id)
  {
    if id in cache && cache[id].ServerAdapter? then Ok(cache[id].adapter) else Err(AdapterNotExistException(id))
  }

  /** `AdapterCache::getReplicaGroup`: a server adapter under that id is
      "not there" as well. */
  function GetReplicaGroup(cache: Cache, id: string): (r: Result<ReplicaGroupEntry, AdapterNotExistException>)
    ensures r.Ok? <==> id in cache && cache[id].ReplicaGroup?
    ensures r.Ok? ==> cache[id] == ReplicaGroup(r.value)
    ensures r.Err? ==> r.error == AdapterNotExistException(id)
  {
    if id in cache && cache[id].ReplicaGroup? then Ok(cache[id].group) else Err(AdapterNotExistException(id))
  }

  /** `AdapterCache::removeServerAdapter`: the entry leaves the map and, if
      it belongs to a group, that group's replica list. The caller
      guarantees the entry and its group exist (asserts in the code). */
  function RemoveServerAdapter(cache: Cache, id: string): (r: Cache)
    requires id in cache && cache[id].ServerAdapter?
    requires var rg := cache[id].adapter.replicaGroupId;
      rg != "" ==> rg in cache && cache[rg].ReplicaGroup?
    ensures r.Keys == cache.Keys - {id}
    ensures var rg := cache[id].adapter.replicaGroupId;
      rg != "" ==> r[rg] == ReplicaGroup(RemoveReplica(cache[rg].group, id))
    ensures forall k :: k in r && k != cache[id].adapter.replicaGroupId ==> r[k] == cache[k]
  {
    var removed := cache - {id};
    var rg := cache[id].adapter.replicaGroupId;
    if rg == "" then removed
    else removed[rg := ReplicaGroup(RemoveReplica(cache[rg].group, id))]
  }

  /** `AdapterCache::removeReplicaGroup`. */
  function RemoveReplicaGroup(cache: Cache, id: string): (r: Cache)
    ensures r.Keys == cache.Keys - {id}
    ensures forall k :: k in r ==> r[k] == cache[k]
  {
    cache - {id}
  }

  // ---------------------------------------------------------------------
  // Lemmas

  /** A priority written as a 32-bit decimal number is read back exactly. */
  lemma PriorityRoundTrip(n: int)
    requires Text.INT_MIN <= n <= Text.INT_MAX
    ensures ParsePriority(Text.IntToString(n)) == n
  {
    Text.ExtractIntRoundTrip(n, "");
    assert Text.IntToString(n) + "" == Text.IntToString(n);
  }

  /** The replica count written as a decimal number is stored as given when
      non-negative and as 1 when negative. */
  lemma UpdateReplicaCount(g: ReplicaGroupEntry, policy: LoadBalancingPolicy, n: int)
    requires Text.INT_MIN <= n <= Text.INT_MAX
    requires policy.nReplicas == Text.IntToString(n)
    ensures Update(g, policy).loadBalancingNReplicas == (if n < 0 then 1 else n)
  {
    Text.ExtractIntRoundTrip(n, "");
    assert Text.IntToString(n) + "" == Text.IntToString(n);
  }

  /** Removing a replica preserves the cursor invariant in every case. */
  lemma RemoveReplicaKeepsCursor(g: ReplicaGroupEntry, replicaId: string)
    requires CursorInRange(g)
    ensures CursorInRange(RemoveReplica(g, replicaId))
  {
  }

  /** With distinct ids, removing a replica removes every replica with that
      id and keeps all others, in order. */
  lemma RemoveReplicaContents(g: ReplicaGroupEntry, replicaId: string)
    requires DistinctIds(g.replicas)
    ensures var r := RemoveReplica(g, replicaId);
      && DistinctIds(r.replicas)
      && (forall a :: a in r.replicas <==> a in g.replicas && a.id != replicaId)
  {
    match FirstReplica(g.replicas, replicaId)
    case None =>
    case Some(i) =>
      RemoveAtDistinct(g.replicas, i);
      RemoveAtMembers(g.replicas, i);
  }

  lemma RemoveAtDistinct(rs: seq<ServerAdapterEntry>, i: nat)
    requires i < |rs| && DistinctIds(rs)
    ensures DistinctIds(rs[..i] + rs[i + 1..])
  {
    var out := rs[..i] + rs[i + 1..];
    assert forall j :: 0 <= j < |out| ==> out[j] == (if j < i then rs[j] else rs[j + 1]);
  }

  /** Dropping the entry at `i` of a list with distinct ids leaves exactly
      the entries with another id. */
  lemma RemoveAtMembers(rs: seq<ServerAdapterEntry>, i: nat)
    requires i < |rs| && DistinctIds(rs)
    ensures forall a :: a in rs[..i] + rs[i + 1..] <==> a in rs && a.id != rs[i].id
  {
    forall a
      ensures a in rs[..i] + rs[i + 1..] <==> a in rs && a.id != rs[i].id
    {
      if a in rs[..i] + rs[i + 1..] {
        RemoveAtKeeps(rs, i, a);
      }
      if a in rs && a.id != rs[i].id {
        RemoveAtDrops(rs, i, a);
      }
    }
  }

  lemma RemoveAtKeeps(rs: seq<ServerAdapterEntry>, i: nat, a: ServerAdapterEntry)
    requires i < |rs| && DistinctIds(rs)
    requires a in rs[..i] + rs[i + 1..]
    ensures a in rs && a.id != rs[i].id
  {
    if a in rs[..i] {
      var j :| 0 <= j < i && rs[..i][j] == a;
      assert rs[j] == a;
    } else {
      var j :| 0 <= j < |rs| - i - 1 && rs[i + 1..][j] == a;
      assert rs[i + 1 + j] == a;
    }
  }

  lemma RemoveAtDrops(rs: seq<ServerAdapterEntry>, i: nat, a: ServerAdapterEntry)
    requires i < |rs|
    requires a in rs && a.id != rs[i].id
    ensures a in rs[..i] + rs[i + 1..]
  {
    var j :| 0 <= j < |rs| && rs[j] == a;
    if j < i {
      assert rs[..i][j] == a;
    } else {
      assert rs[i + 1..][j - i - 1] == a;
    }
  }

  /** Adding a server adapter keeps the cache consistent. */
  lemma AddServerAdapterConsistent(cache: Cache, desc: AdapterDescriptor, application: string)
    requires Consistent(cache)
    requires desc.id !in cache
    requires desc.replicaGroupId != "" ==>
      desc.replicaGroupId in cache && cache[desc.replicaGroupId].ReplicaGroup?
    ensures Consistent(AddServerAdapter(cache, desc, application).0)
  {
    AddedRegistered(cache, desc, application);
    AddedGroupsWellFormed(cache, desc, application);
    AddedListed(cache, desc, application);
  }

  lemma AddedRegistered(cache: Cache, desc: AdapterDescriptor, application: string)
    requires Consistent(cache)
    requires desc.id !in cache
    requires desc.replicaGroupId != "" ==>
      desc.replicaGroupId in cache && cache[desc.replicaGroupId].ReplicaGroup?
    ensures var c := AddServerAdapter(cache, desc, application).0;
      forall k, i :: k in c && c[k].ReplicaGroup? && 0 <= i < |c[k].group.replicas| ==>
        Registered(c, c[k].group.replicas[i], k)
  {
    var (c, e) := AddServerAdapter(cache, desc, application);
    var rg := desc.replicaGroupId;
    forall k, i | k in c && c[k].ReplicaGroup? && 0 <= i < |c[k].group.replicas|
      ensures Registered(c, c[k].group.replicas[i], k)
    {
      if k == rg && i == |c[k].group.replicas| - 1 {
        assert c[k].group.replicas[i] == e;
      } else {
        assert c[k].group.replicas[i] == cache[k].group.replicas[i];
        assert Registered(cache, cache[k].group.replicas[i], k);
      }
    }
  }

  lemma AddedGroupsWellFormed(cache: Cache, desc: AdapterDescriptor, application: string)
    requires Consistent(cache)
    requires desc.id !in cache
    requires desc.replicaGroupId != "" ==>
      desc.replicaGroupId in cache && cache[desc.replicaGroupId].ReplicaGroup?
    ensures var c := AddServerAdapter(cache, desc, application).0;
      forall k :: k in c && c[k].ReplicaGroup? ==> CursorInRange(c[k].group) && DistinctIds(c[k].group.replicas)
  {
    var rg := desc.replicaGroupId;
    if rg != "" {
      var rs := cache[rg].group.replicas;
      forall i | 0 <= i < |rs|
        ensures rs[i].id != desc.id
      {
        assert Registered(cache, rs[i], rg);
      }
    }
  }

  lemma AddedListed(cache: Cache, desc: AdapterDescriptor, application: string)
    requires Consistent(cache)
    requires desc.id !in cache
    requires desc.replicaGroupId != "" ==>
      desc.replicaGroupId in cache && cache[desc.replicaGroupId].ReplicaGroup?
    ensures var c := AddServerAdapter(cache, desc, application).0;
      forall k :: k in c && c[k].ServerAdapter? && c[k].adapter.replicaGroupId != "" ==> Listed(c, c[k].adapter)
  {
    var (c, e) := AddServerAdapter(cache, desc, application);
    var rg := desc.replicaGroupId;
    forall k | k in c && c[k].ServerAdapter? && c[k].adapter.replicaGroupId != ""
      ensures Listed(c, c[k].adapter)
    {
      if k != desc.id {
        assert Listed(cache, cache[k].adapter);
        var a := cache[k].adapter;
        if a.replicaGroupId == rg {
          assert a in c[rg].group.replicas by {
            assert c[rg].group.replicas == cache[rg].group.replicas + [e];
          }
        }
      } else {
        assert c[rg].group.replicas[|c[rg].group.replicas| - 1] == e;
      }
    }
  }

  /** Adding a replica group keeps the cache consistent. */
  lemma AddReplicaGroupConsistent(cache: Cache, desc: ReplicaGroupDescriptor, application: string)
    requires Consistent(cache)
    requires desc.id !in cache
    ensures Consistent(AddReplicaGroup(cache, desc, application).0)
  {
    var c := AddReplicaGroup(cache, desc, application).0;
    forall k | k in c && c[k].ServerAdapter? && c[k].adapter.replicaGroupId != ""
      ensures Listed(c, c[k].adapter)
    {
      assert Listed(cache, cache[k].adapter);
    }
    forall k, i | k in c && c[k].ReplicaGroup? && 0 <= i < |c[k].group.replicas|
      ensures Registered(c, c[k].group.replicas[i], k)
    {
      assert Registered(cache, cache[k].group.replicas[i], k);
    }
  }

  /** Removing a server adapter keeps the cache consistent. */
  lemma RemoveServerAdapterConsistent(cache: Cache, id: string)
    requires Consistent(cache)
    requires id in cache && cache[id].ServerAdapter?
    ensures var rg := cache[id].adapter.replicaGroupId;
      rg != "" ==> rg in cache && cache[rg].ReplicaGroup?
    ensures Consistent(RemoveServerAdapter(cache, id))
  {
    var a := cache[id].adapter;
    if a.replicaGroupId != "" {
      assert Listed(cache, a);
    }
    var c := RemoveServerAdapter(cache, id);
    RemovedStillRegistered(cache, id);
    RemovedStillListed(cache, id);
    RemovedGroupsWellFormed(cache, id);
    assert forall k :: k in c ==> c[k].Id() == k;
  }

  lemma RemovedStillRegistered(cache: Cache, id: string)
    requires Consistent(cache)
    requires id in cache && cache[id].ServerAdapter?
    requires var rg := cache[id].adapter.replicaGroupId;
      rg != "" ==> rg in cache && cache[rg].ReplicaGroup?
    ensures var c := RemoveServerAdapter(cache, id);
      forall k, i :: k in c && c[k].ReplicaGroup? && 0 <= i < |c[k].group.replicas| ==>
        Registered(c, c[k].group.replicas[i], k)
  {
    var rg := cache[id].adapter.replicaGroupId;
    var c := RemoveServerAdapter(cache, id);
    if rg != "" {
      RemoveReplicaContents(cache[rg].group, id);
    }
    forall k, i | k in c && c[k].ReplicaGroup? && 0 <= i < |c[k].group.replicas|
      ensures Registered(c, c[k].group.replicas[i], k)
    {
      var b := c[k].group.replicas[i];
      if k == rg {
        assert b in c[k].group.replicas;
        assert b in cache[k].group.replicas && b.id != id;
        var j :| 0 <= j < |cache[k].group.replicas| && cache[k].group.replicas[j] == b;
        assert Registered(cache, cache[k].group.replicas[j], k);
      } else {
        assert b == cache[k].group.replicas[i];
        assert Registered(cache, b, k);
      }
    }
  }

  lemma RemovedStillListed(cache: Cache, id: string)
    requires Consistent(cache)
    requires id in cache && cache[id].ServerAdapter?
    requires var rg := cache[id].adapter.replicaGroupId;
      rg != "" ==> rg in cache && cache[rg].ReplicaGroup?
    ensures var c := RemoveServerAdapter(cache, id);
      forall k :: k in c && c[k].ServerAdapter? && c[k].adapter.replicaGroupId != "" ==> Listed(c, c[k].adapter)
  {
    var rg := cache[id].adapter.replicaGroupId;
    var c := RemoveServerAdapter(cache, id);
    if rg != "" {
      RemoveReplicaContents(cache[rg].group, id);
    }
    forall k | k in c && c[k].ServerAdapter? && c[k].adapter.replicaGroupId != ""
      ensures Listed(c, c[k].adapter)
    {
      var b := c[k].adapter;
      assert Listed(cache, b);
      assert b.id == k && k != id;
    }
  }

  lemma RemovedGroupsWellFormed(cache: Cache, id: string)
    requires Consistent(cache)
    requires id in cache && cache[id].ServerAdapter?
    requires var rg := cache[id].adapter.replicaGroupId;
      rg != "" ==> rg in cache && cache[rg].ReplicaGroup?
    ensures var c := RemoveServerAdapter(cache, id);
      forall k :: k in c && c[k].ReplicaGroup? ==> CursorInRange(c[k].group) && DistinctIds(c[k].group.replicas)
  {
    var rg := cache[id].adapter.replicaGroupId;
    if rg != "" {
      RemoveReplicaContents(cache[rg].group, id);
      RemoveReplicaKeepsCursor(cache[rg].group, id);
    }
  }

  /** Removing a replica group that no server adapter names keeps the cache
      consistent. */
  lemma RemoveReplicaGroupConsistent(cache: Cache, id: string)
    requires Consistent(cache)
    requires id in cache ==> cache[id].ReplicaGroup?
    requires forall k :: k in cache && cache[k].ServerAdapter? ==> cache[k].adapter.replicaGroupId != id
    ensures Consistent(RemoveReplicaGroup(cache, id))
  {
    var c := RemoveReplicaGroup(cache, id);
    forall k, i | k in c && c[k].ReplicaGroup? && 0 <= i < |c[k].group.replicas|
      ensures Registered(c, c[k].group.replicas[i], k)
    {
      assert Registered(cache, cache[k].group.replicas[i], k);
      assert cache[k].group.replicas[i].id != id;
    }
    forall k | k in c && c[k].ServerAdapter? && c[k].adapter.replicaGroupId != ""
      ensures Listed(c, c[k].adapter)
    {
      assert Listed(cache, cache[k].adapter);
    }
  }
}
