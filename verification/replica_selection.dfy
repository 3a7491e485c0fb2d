/** Choosing the adapters that answer a locate request
    (`ServerAdapterEntry::getProxies`, `ReplicaGroupEntry::getProxies`).
    The proxy of a server adapter comes from its server, a remote call the
    model receives as a lookup oracle. */
module ReplicaSelection {
  import opened Wrappers
  import opened AdapterCache

  datatype AdapterPrx = AdapterPrx(endpoint: string)

  /** How a proxy lookup can fail. The first three are the failures a
      replica group skips; `LookupFailed` stands for any other exception. */
  datatype LookupError =
    | AdapterNotExist(id: string)
    | InvalidReplicaGroupId
    | NodeUnreachable(node: string)
    | LookupFailed(name: string)

  /** The server's `getAdapter(id, upToDate)`. */
  type AdapterLookup = string -> Result<AdapterPrx, LookupError>

  type Selected = seq<(string, AdapterPrx)>

  /** The three out-values of `getProxies`: the replica count to use, whether
      the id names a replica group, and the adapters (or the exception). */
  datatype Proxies = Proxies(nReplicas: int, replicaGroup: bool, adapters: Result<Selected, LookupError>)

  predicate Skipped(e: LookupError) {
    e.AdapterNotExist? || e.InvalidReplicaGroupId? || e.NodeUnreachable?
  }

  /** `ServerAdapterEntry::getProxy`: asked on behalf of a group it does not
      belong to, an adapter refuses; otherwise its server is asked. */
  function GetProxy(a: ServerAdapterEntry, replicaGroupId: string, lookup: AdapterLookup)
    : (r: Result<AdapterPrx, LookupError>)
    ensures replicaGroupId != "" && replicaGroupId != a.replicaGroupId ==> r == Err(InvalidReplicaGroupId)
    ensures replicaGroupId == "" || replicaGroupId == a.replicaGroupId ==> r == lookup(a.id)
  {
    if replicaGroupId != "" && a.replicaGroupId != replicaGroupId then Err(InvalidReplicaGroupId)
    else lookup(a.id)
  }

  /** `ServerAdapterEntry::getProxies`: the adapter alone, one replica, not a
      group. The two counts are set before the lookup, so they hold even when
      it fails. */
  function ServerAdapterProxies(a: ServerAdapterEntry, lookup: AdapterLookup): (r: Proxies)
    ensures r.nReplicas == 1 && !r.replicaGroup
    ensures lookup(a.id).Ok? ==> r.adapters == Ok([(a.id, lookup(a.id).value)])
    ensures lookup(a.id).Err? ==> r.adapters == Err(lookup(a.id).error)
  {
    var adapters := match GetProxy(a, "", lookup)
      case Ok(p) => Ok([(a.id, p)])
      case Err(e) => Err(e);
    Proxies(1, false, adapters)
  }

  // ---------------------------------------------------------------------
  // Ordering policies

  /** The round-robin order: the replicas starting at position `k`, wrapping
      around. */
  function Rotation(rs: seq<ServerAdapterEntry>, k: nat): (r: seq<ServerAdapterEntry>)
    requires |rs| > 0
    ensures |r| == |rs|
    ensures forall i :: 0 <= i < |r| ==> r[i] in rs
  {
    seq(|rs|, i requires 0 <= i < |rs| => rs[(k + i) % |rs|])
  }

  /** A rotation from an in-range start is the tail from `k` followed by the
      head before `k`, hence a permutation. */
  lemma RotationIsSplice(rs: seq<ServerAdapterEntry>, k: nat)
    requires k < |rs|
    ensures Rotation(rs, k) == rs[k..] + rs[..k]
    ensures multiset(Rotation(rs, k)) == multiset(rs)
  {
    var r := Rotation(rs, k);
    var s := rs[k..] + rs[..k];
    forall i | 0 <= i < |rs|
      ensures r[i] == s[i]
    {
      RotationIndex(rs, k, i);
    }
    assert r == s;
    assert rs == rs[..k] + rs[k..];
  }

  lemma RotationIndex(rs: seq<ServerAdapterEntry>, k: nat, i: nat)
    requires k < |rs| && i < |rs|
    ensures Rotation(rs, k)[i] == (rs[k..] + rs[..k])[i]
  {
    if k + i < |rs| {
      assert (k + i) % |rs| == k + i;
    } else {
      assert (k + i) % |rs| == k + i - |rs|;
    }
  }

  predicate SortedByPriority(rs: seq<ServerAdapterEntry>) {
    forall i, j :: 0 <= i < j < |rs| ==> rs[i].priority <= rs[j].priority
  }

  /** Insert before the first replica of equal or greater priority. */
  function InsertByPriority(x: ServerAdapterEntry, rs: seq<ServerAdapterEntry>): (r: seq<ServerAdapterEntry>)
    requires SortedByPriority(rs)
    ensures SortedByPriority(r)
    ensures multiset(r) == multiset(rs) + multiset{x}
    ensures r[0] == if rs == [] || x.priority <= rs[0].priority then x else rs[0]
  {
    if rs == [] || x.priority <= rs[0].priority then
      SortedCons(x, rs);
      [x] + rs
    else
      var tail := InsertByPriority(x, rs[1..]);
      assert rs == [rs[0]] + rs[1..];
      SortedCons(rs[0], tail);
      [rs[0]] + tail
  }

  /** Putting an element no greater than the head in front keeps a list
      sorted. */
  lemma SortedCons(a: ServerAdapterEntry, t: seq<ServerAdapterEntry>)
    requires SortedByPriority(t)
    requires t != [] ==> a.priority <= t[0].priority
    ensures SortedByPriority([a] + t)
  {
    var r := [a] + t;
    forall i, j | 0 <= i < j < |r|
      ensures r[i].priority <= r[j].priority
    {
      assert r[j] == t[j - 1];
      if i > 0 {
        assert r[i] == t[i - 1];
      } else if j > 1 {
        assert t[0].priority <= t[j - 1].priority;
      }
    }
  }

  /** `std::sort` with `ReplicaPriorityComp`: ascending priority. */
  function SortByPriority(rs: seq<ServerAdapterEntry>): (r: seq<ServerAdapterEntry>)
    ensures SortedByPriority(r)
    ensures multiset(r) == multiset(rs)
  {
    if rs == [] then []
    else
      assert rs == [rs[0]] + rs[1..];
      InsertByPriority(rs[0], SortByPriority(rs[1..]))
  }

  /** The order in which a group tries its replicas, and the group after the
      choice (only round-robin moves its cursor). `shuffled` is the order the
      random and adaptive policies would produce. */
  function Candidates(g: ReplicaGroupEntry, shuffled: seq<ServerAdapterEntry>)
    : (r: (seq<ServerAdapterEntry>, ReplicaGroupEntry))
    requires g.replicas != []
    ensures g.loadBalancing.RoundRobin? ==>
      r.0 == Rotation(g.replicas, g.lastReplica) && r.1 == g.(lastReplica := (g.lastReplica + 1) % |g.replicas|)
    ensures g.loadBalancing.Ordered? ==>
      SortedByPriority(r.0) && multiset(r.0) == multiset(g.replicas) && r.1 == g
    ensures g.loadBalancing.Random? || g.loadBalancing.Adaptive? ==> r.0 == shuffled && r.1 == g
  {
    match g.loadBalancing
    case RoundRobin(_) =>
      (Rotation(g.replicas, g.lastReplica), g.(lastReplica := (g.lastReplica + 1) % |g.replicas|))
    case Ordered(_) => (SortByPriority(g.replicas), g)
    case Random(_) => (shuffled, g)
    case Adaptive(_, _) => (shuffled, g)
  }

  /** Round-robin yields a permutation of the replicas and keeps the cursor
      in range. */
  lemma RoundRobinPermutes(g: ReplicaGroupEntry, shuffled: seq<ServerAdapterEntry>)
    requires g.replicas != [] && CursorInRange(g) && g.loadBalancing.RoundRobin?
    ensures multiset(Candidates(g, shuffled).0) == multiset(g.replicas)
    ensures Candidates(g, shuffled).0 == g.replicas[g.lastReplica..] + g.replicas[..g.lastReplica]
    ensures CursorInRange(Candidates(g, shuffled).1)
  {
    RotationIsSplice(g.replicas, g.lastReplica);
  }

  /** Calls made one after another start one position further each time. */
  lemma RoundRobinAdvances(g: ReplicaGroupEntry, shuffled: seq<ServerAdapterEntry>)
    requires g.replicas != [] && CursorInRange(g) && g.loadBalancing.RoundRobin?
    ensures var next := Candidates(g, shuffled).1;
      Candidates(next, shuffled).0[0] == Candidates(g, shuffled).0[1 % |g.replicas|]
  {
    var n := |g.replicas|;
    var k := g.lastReplica;
    var next := Candidates(g, shuffled).1;
    assert next == g.(lastReplica := (k + 1) % n);
    RotationStep(g.replicas, k);
  }

  lemma RotationStep(rs: seq<ServerAdapterEntry>, k: nat)
    requires k < |rs|
    ensures Rotation(rs, (k + 1) % |rs|)[0] == Rotation(rs, k)[1 % |rs|]
  {
    var n := |rs|;
    if n == 1 {
      assert k == 0 && (k + 1) % n == 0 && 1 % n == 0;
    } else {
      var k' := (k + 1) % n;
      assert 1 % n == 1;
      assert k' < n && (k' + 0) % n == k';
      assert Rotation(rs, k)[1] == rs[k'];
    }
  }

  // ---------------------------------------------------------------------
  // Collecting proxies

  /** The reference result of the lookup loop: the replicas' proxies in
      candidate order, skipping the tolerated failures; any other failure
      ends the call. */
  function Kept(cs: seq<ServerAdapterEntry>, groupId: string, lookup: AdapterLookup)
    : (r: Result<Selected, LookupError>)
    ensures r.Err? ==> !Skipped(r.error)
    ensures r.Ok? ==> |r.value| <= |cs|
  {
    if cs == [] then Ok([])
    else match GetProxy(cs[0], groupId, lookup)
      case Ok(p) => Prepend([(cs[0].id, p)], Kept(cs[1..], groupId, lookup))
      case Err(e) => if Skipped(e) then Kept(cs[1..], groupId, lookup) else Err(e)
  }

  function Prepend(front: Selected, rest: Result<Selected, LookupError>): (r: Result<Selected, LookupError>)
    ensures rest.Ok? ==> r == Ok(front + rest.value)
    ensures rest.Err? ==> r == rest
  {
    match rest
    case Ok(s) => Ok(front + s)
    case Err(e) => Err(e)
  }

  /** Some lookup failed in a way the group does not tolerate. */
  predicate HasFatal(cs: seq<ServerAdapterEntry>, groupId: string, lookup: AdapterLookup) {
    exists i :: 0 <= i < |cs| && GetProxy(cs[i], groupId, lookup).Err? && !Skipped(GetProxy(cs[i], groupId, lookup).error)
  }

  /** The loop fails exactly when some lookup fails fatally, and then with
      the first such failure. */
  lemma {:induction false} KeptFailsOnFatal(cs: seq<ServerAdapterEntry>, groupId: string, lookup: AdapterLookup)
    ensures Kept(cs, groupId, lookup).Err? <==> HasFatal(cs, groupId, lookup)
    ensures Kept(cs, groupId, lookup).Err? ==>
      exists i :: 0 <= i < |cs| && GetProxy(cs[i], groupId, lookup) == Err(Kept(cs, groupId, lookup).error)
        && forall j :: 0 <= j < i ==> GetProxy(cs[j], groupId, lookup).Ok? || Skipped(GetProxy(cs[j], groupId, lookup).error)
  {
    if cs != [] {
      KeptFailsOnFatal(cs[1..], groupId, lookup);
      if HasFatal(cs[1..], groupId, lookup) {
        var i :| 0 <= i < |cs[1..]| && GetProxy(cs[1..][i], groupId, lookup).Err? && !Skipped(GetProxy(cs[1..][i], groupId, lookup).error);
        assert GetProxy(cs[i + 1], groupId, lookup) == GetProxy(cs[1..][i], groupId, lookup);
      }
      if HasFatal(cs, groupId, lookup) {
        var i :| 0 <= i < |cs| && GetProxy(cs[i], groupId, lookup).Err? && !Skipped(GetProxy(cs[i], groupId, lookup).error);
        if i > 0 {
          assert GetProxy(cs[1..][i - 1], groupId, lookup) == GetProxy(cs[i], groupId, lookup);
        }
      }
      var r := Kept(cs, groupId, lookup);
      if r.Err? && !(GetProxy(cs[0], groupId, lookup).Err? && !Skipped(GetProxy(cs[0], groupId, lookup).error)) {
        var i :| 0 <= i < |cs[1..]| && GetProxy(cs[1..][i], groupId, lookup) == Err(Kept(cs[1..], groupId, lookup).error)
          && forall j :: 0 <= j < i ==> GetProxy(cs[1..][j], groupId, lookup).Ok? || Skipped(GetProxy(cs[1..][j], groupId, lookup).error);
        assert GetProxy(cs[i + 1], groupId, lookup) == Err(r.error);
        forall j | 0 <= j < i + 1
          ensures GetProxy(cs[j], groupId, lookup).Ok? || Skipped(GetProxy(cs[j], groupId, lookup).error)
        {
          if j > 0 {
            assert cs[j] == cs[1..][j - 1];
          }
        }
      }
    }
  }

  /** `sub` is `s` with some elements left out. */
  predicate IsSubsequence<T(==)>(sub: seq<T>, s: seq<T>)
    decreases |s|
  {
    if sub == [] then true
    else if s == [] then false
    else if sub[0] == s[0] then IsSubsequence(sub[1..], s[1..])
    else IsSubsequence(sub, s[1..])
  }

  function Ids(cs: seq<ServerAdapterEntry>): (r: seq<string>)
    ensures |r| == |cs| && forall i :: 0 <= i < |cs| ==> r[i] == cs[i].id
  {
    seq(|cs|, i requires 0 <= i < |cs| => cs[i].id)
  }

  function Keys(sel: Selected): (r: seq<string>)
    ensures |r| == |sel| && forall i :: 0 <= i < |sel| ==> r[i] == sel[i].0
  {
    seq(|sel|, i requires 0 <= i < |sel| => sel[i].0)
  }

  /** On success the selected adapters keep the candidates' order, each with
      the proxy its own lookup returned, and every candidate whose lookup
      succeeded is selected. */
  lemma KeptKeepsOrder(cs: seq<ServerAdapterEntry>, groupId: string, lookup: AdapterLookup)
    requires Kept(cs, groupId, lookup).Ok?
    ensures IsSubsequence(Keys(Kept(cs, groupId, lookup).value), Ids(cs))
    ensures forall k :: 0 <= k < |Kept(cs, groupId, lookup).value| ==>
      var (id, p) := Kept(cs, groupId, lookup).value[k];
      exists i :: 0 <= i < |cs| && cs[i].id == id && GetProxy(cs[i], groupId, lookup) == Ok(p)
    ensures |Kept(cs, groupId, lookup).value| == OkCount(cs, groupId, lookup)
  {
    KeptSubsequence(cs, groupId, lookup);
    KeptFromLookups(cs, groupId, lookup);
    KeptCount(cs, groupId, lookup);
  }

  lemma {:induction false} KeptSubsequence(cs: seq<ServerAdapterEntry>, groupId: string, lookup: AdapterLookup)
    requires Kept(cs, groupId, lookup).Ok?
    ensures IsSubsequence(Keys(Kept(cs, groupId, lookup).value), Ids(cs))
  {
    if cs != [] {
      var rest := Kept(cs[1..], groupId, lookup);
      var r := Kept(cs, groupId, lookup).value;
      assert Ids(cs)[1..] == Ids(cs[1..]);
      match GetProxy(cs[0], groupId, lookup)
      case Ok(p) =>
        KeptSubsequence(cs[1..], groupId, lookup);
        assert r == [(cs[0].id, p)] + rest.value;
        assert Keys(r)[1..] == Keys(rest.value);
      case Err(e) =>
        KeptSubsequence(cs[1..], groupId, lookup);
        SubsequenceOfTail(Keys(r), Ids(cs));
    }
  }

  lemma {:induction false} KeptFromLookups(cs: seq<ServerAdapterEntry>, groupId: string, lookup: AdapterLookup)
    requires Kept(cs, groupId, lookup).Ok?
    ensures forall k :: 0 <= k < |Kept(cs, groupId, lookup).value| ==>
      var (id, p) := Kept(cs, groupId, lookup).value[k];
      exists i :: 0 <= i < |cs| && cs[i].id == id && GetProxy(cs[i], groupId, lookup) == Ok(p)
  {
    if cs != [] {
      var rest := Kept(cs[1..], groupId, lookup);
      var r := Kept(cs, groupId, lookup).value;
      KeptFromLookups(cs[1..], groupId, lookup);
      match GetProxy(cs[0], groupId, lookup)
      case Ok(p) =>
        assert r == [(cs[0].id, p)] + rest.value;
        forall k | 0 <= k < |r|
          ensures exists i :: 0 <= i < |cs| && cs[i].id == r[k].0 && GetProxy(cs[i], groupId, lookup) == Ok(r[k].1)
        {
          if k == 0 {
            assert cs[0].id == r[0].0 && GetProxy(cs[0], groupId, lookup) == Ok(r[0].1);
          } else {
            assert r[k] == rest.value[k - 1];
            var i :| 0 <= i < |cs[1..]| && cs[1..][i].id == r[k].0 && GetProxy(cs[1..][i], groupId, lookup) == Ok(r[k].1);
            assert cs[i + 1] == cs[1..][i];
          }
        }
      case Err(e) =>
        forall k | 0 <= k < |r|
          ensures exists i :: 0 <= i < |cs| && cs[i].id == r[k].0 && GetProxy(cs[i], groupId, lookup) == Ok(r[k].1)
        {
          var i :| 0 <= i < |cs[1..]| && cs[1..][i].id == r[k].0 && GetProxy(cs[1..][i], groupId, lookup) == Ok(r[k].1);
          assert cs[i + 1] == cs[1..][i];
        }
    }
  }

  lemma {:induction false} KeptCount(cs: seq<ServerAdapterEntry>, groupId: string, lookup: AdapterLookup)
    requires Kept(cs, groupId, lookup).Ok?
    ensures |Kept(cs, groupId, lookup).value| == OkCount(cs, groupId, lookup)
  {
    if cs != [] {
      KeptCount(cs[1..], groupId, lookup);
    }
  }

  /** A subsequence of a tail is a subsequence of the whole. */
  lemma {:induction false} SubsequenceOfTail<T>(sub: seq<T>, s: seq<T>)
    requires s != [] && IsSubsequence(sub, s[1..])
    ensures IsSubsequence(sub, s)
    decreases |s|, 1
  {
    if sub != [] && sub[0] == s[0] {
      DropHead(sub, s[1..]);
    }
  }

  /** Leaving out the first element of a subsequence keeps it one. */
  lemma {:induction false} DropHead<T>(sub: seq<T>, t: seq<T>)
    requires sub != [] && IsSubsequence(sub, t)
    ensures IsSubsequence(sub[1..], t)
    decreases |t| + 1, 0
  {
    assert t != [];
    if sub[0] == t[0] {
      SubsequenceOfTail(sub[1..], t);
    } else {
      DropHead(sub, t[1..]);
      SubsequenceOfTail(sub[1..], t);
    }
  }

  /** How many candidates' lookups succeed. */
  function OkCount(cs: seq<ServerAdapterEntry>, groupId: string, lookup: AdapterLookup): (n: nat)
    ensures n <= |cs|
  {
    if cs == [] then 0
    else (if GetProxy(cs[0], groupId, lookup).Ok? then 1 else 0) + OkCount(cs[1..], groupId, lookup)
  }

  /** The lookup loop of `ReplicaGroupEntry::getProxies`, which computes
      `Kept`. */
  method CollectProxies(cs: seq<ServerAdapterEntry>, groupId: string, lookup: AdapterLookup)
    returns (r: Result<Selected, LookupError>)
    ensures r == Kept(cs, groupId, lookup)
  {
    var adapters: Selected := [];
    var i := 0;
    assert cs[0..] == cs;
    match Kept(cs, groupId, lookup) {
      case Ok(v) => assert [] + v == v;
      case Err(_) =>
    }
    while i < |cs|
      invariant 0 <= i <= |cs|
      invariant Kept(cs, groupId, lookup) == Prepend(adapters, Kept(cs[i..], groupId, lookup))
      decreases |cs| - i
    {
      assert cs[i..][0] == cs[i] && cs[i..][1..] == cs[i + 1..];
      match GetProxy(cs[i], groupId, lookup) {
        case Ok(p) =>
          PrependTwice(adapters, [(cs[i].id, p)], Kept(cs[i + 1..], groupId, lookup));
          adapters := adapters + [(cs[i].id, p)];
        case Err(e) =>
          if !Skipped(e) {
            return Err(e);
          }
      }
      i := i + 1;
    }
    assert cs[i..] == [];
    assert adapters + [] == adapters;
    r := Ok(adapters);
  }

  lemma PrependTwice(a: Selected, b: Selected, rest: Result<Selected, LookupError>)
    ensures Prepend(a, Prepend(b, rest)) == Prepend(a + b, rest)
  {
    if rest.Ok? {
      assert a + (b + rest.value) == (a + b) + rest.value;
    }
  }

  /** `ReplicaGroupEntry::getProxies`: an empty group answers nothing and
      leaves `nReplicas` as the caller passed it; otherwise the count is the
      configured one if positive, else the group size, and the proxies are
      collected in the policy's order. */
  method ReplicaGroupProxies(g: ReplicaGroupEntry, nReplicas: int, lookup: AdapterLookup,
                             shuffled: seq<ServerAdapterEntry>)
    returns (next: ReplicaGroupEntry, r: Proxies)
    ensures r.replicaGroup
    ensures g.replicas == [] ==> next == g && r == Proxies(nReplicas, true, Ok([]))
    ensures g.replicas != [] ==>
      r.nReplicas == (if g.loadBalancingNReplicas > 0 then g.loadBalancingNReplicas else |g.replicas|)
    ensures g.replicas != [] ==>
      next == Candidates(g, shuffled).1 && r.adapters == Kept(Candidates(g, shuffled).0, g.id, lookup)
  {
    if g.replicas == [] {
      return g, Proxies(nReplicas, true, Ok([]));
    }
    var count := if g.loadBalancingNReplicas > 0 then g.loadBalancingNReplicas else |g.replicas|;
    var (cs, g') := Candidates(g, shuffled);
    var adapters := CollectProxies(cs, g.id, lookup);
    return g', Proxies(count, true, adapters);
  }

  /** In a consistent cache every replica belongs to the group, so a lookup
      on its behalf never fails with `InvalidReplicaGroupId`. */
  lemma GroupMembersAccepted(cache: Cache, id: string, i: nat, lookup: AdapterLookup)
    requires Consistent(cache)
    requires id in cache && cache[id].ReplicaGroup? && i < |cache[id].group.replicas|
    ensures GetProxy(cache[id].group.replicas[i], id, lookup) == lookup(cache[id].group.replicas[i].id)
  {
    assert Registered(cache, cache[id].group.replicas[i], id);
  }
}
