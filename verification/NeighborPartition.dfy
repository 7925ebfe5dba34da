/**
 Adding ordinary neighbors to a WireGuard device that other owners also use.

 The preflight admits a partition of the device; the device delta is then planned on that
 partition alone and applied to the whole device. The main result is that an admitted plan
 removes no peer, replaces no accept list of an existing peer, leaves every other peer as it
 was and only adds to the selected ones.
 */
module NeighborPartition {
  import opened Options
  import opened Prefixes
  import opened DeviceDelta

  datatype Neighbor = Neighbor(key: Key, remote: bool, transit: bool, endpoint: Option<string>, allowed: seq<IPNet>)

  const HANDSHAKE_MAX_AGE := 180

  /** A canonical, non-default source prefix. */
  predicate Canonical(n: IPNet) {
    0 < n.ones <= |n.ip| && forall i | n.ones <= i < |n.ip| :: !n.ip[i]
  }

  /** The net with every bit behind its mask cleared. */
  function Masked(n: IPNet): IPNet
    requires n.ones <= |n.ip|
  {
    n.(ip := n.ip[..n.ones] + seq(|n.ip| - n.ones, _ => false))
  }

  /** Canonical nets are the ones that masking leaves alone. */
  lemma CanonicalIff(n: IPNet)
    ensures Canonical(n) <==> 0 < n.ones <= |n.ip| && Masked(n) == n
  {
    if 0 < n.ones <= |n.ip| {
      assert forall i | n.ones <= i < |n.ip| :: !Masked(n).ip[i];
      if Canonical(n) {
        assert Masked(n).ip == n.ip;
      }
    }
  }

  function Keys(peers: seq<Neighbor>): set<Key> {
    if peers == [] then {} else Keys(peers[..|peers| - 1]) + {peers[|peers| - 1].key}
  }

  /** Every prefix the neighbors list. */
  function Sources(peers: seq<Neighbor>): set<Prefix> {
    if peers == [] then {} else Sources(peers[..|peers| - 1]) + Canon(peers[|peers| - 1].allowed)
  }

  /** Every prefix that live peers other than `key` accept. */
  function OtherSources(live: seq<Peer>, key: Key): set<Prefix> {
    if live == [] then {}
    else
      var last := live[|live| - 1];
      OtherSources(live[..|live| - 1], key) + if last.key == key then {} else Canon(last.allowed)
  }

  predicate OverlapsSome(p: Prefix, taken: set<Prefix>) {
    exists q :: q in taken && Overlaps(q, p)
  }

  /** What every source entry must meet, given the prefixes of earlier neighbors. */
  predicate EntryAllowed(n: IPNet, key: Key, earlier: set<Prefix>, live: seq<Peer>, refused: set<Prefix>) {
    && Canonical(n)
    && CanonicalPrefix(n) !in refused
    && !OverlapsSome(CanonicalPrefix(n), earlier)
    && !OverlapsSome(CanonicalPrefix(n), OtherSources(live, key))
  }

  predicate EntriesAllowed(nets: seq<IPNet>, key: Key, earlier: set<Prefix>, live: seq<Peer>, refused: set<Prefix>) {
    forall i | 0 <= i < |nets| :: EntryAllowed(nets[i], key, earlier, live, refused)
  }

  predicate NeighborAllowed(n: Neighbor, earlier: seq<Neighbor>, live: seq<Peer>, own: Key, refused: set<Prefix>) {
    && n.key != own && n.key !in Keys(earlier) && n.remote && !n.transit && n.endpoint.Some?
    && n.allowed != []
    && EntriesAllowed(n.allowed, n.key, Sources(earlier), live, refused)
    && (Find(live, n.key).Some? ==> Canon(Find(live, n.key).value.allowed) <= Canon(n.allowed))
  }

  predicate Admitted(peers: seq<Neighbor>, live: seq<Peer>, own: Key, refused: set<Prefix>) {
    peers == [] || (var front, last := peers[..|peers| - 1], peers[|peers| - 1];
                    Admitted(front, live, own, refused) && NeighborAllowed(last, front, live, own, refused))
  }

  lemma {:induction false} AdmittedAt(peers: seq<Neighbor>, live: seq<Peer>, own: Key, refused: set<Prefix>, i: nat)
    requires Admitted(peers, live, own, refused) && i < |peers|
    ensures Admitted(peers[..i + 1], live, own, refused) && NeighborAllowed(peers[i], peers[..i], live, own, refused)
  {
    if i == |peers| - 1 {
      assert peers[..i + 1] == peers;
    } else {
      var front := peers[..|peers| - 1];
      AdmittedAt(front, live, own, refused, i);
      assert front[..i] == peers[..i] && front[..i + 1] == peers[..i + 1];
    }
  }

  /** A published endpoint is only a hint: a peer with a recent handshake keeps its own. */
  function NeighborEndpoint(configured: Option<string>, before: Option<Peer>, handshakes: map<Key, int>,
      now: int): Option<string> {
    if before.Some? && before.value.endpoint.Some? && before.value.key in handshakes
       && handshakes[before.value.key] <= now && now - handshakes[before.value.key] <= HANDSHAKE_MAX_AGE
    then None else configured
  }

  function WantedPeer(n: Neighbor, live: seq<Peer>, handshakes: map<Key, int>, now: int, keepalive: nat): PeerConfig {
    PeerConfig(n.key, false, None, NeighborEndpoint(n.endpoint, Find(live, n.key), handshakes, now), Some(keepalive),
      true, n.allowed)
  }

  function Wanted(peers: seq<Neighbor>, live: seq<Peer>, handshakes: map<Key, int>, now: int,
      keepalive: nat): seq<PeerConfig>
  {
    if peers == [] then []
    else
      var front := peers[..|peers| - 1];
      Wanted(front, live, handshakes, now, keepalive) +
        [WantedPeer(peers[|peers| - 1], live, handshakes, now, keepalive)]
  }

  /** The entries name the neighbors in order, with their whole accept lists. */
  ghost predicate Describes(wanted: seq<PeerConfig>, peers: seq<Neighbor>) {
    && |wanted| == |peers|
    && forall i | 0 <= i < |peers| ::
         && wanted[i].key == peers[i].key && wanted[i].allowed == peers[i].allowed
         && wanted[i].replace && !wanted[i].remove
  }

  lemma {:induction false} WantedDescribes(peers: seq<Neighbor>, live: seq<Peer>, handshakes: map<Key, int>, now: int,
                                           keepalive: nat)
    ensures Describes(Wanted(peers, live, handshakes, now, keepalive), peers)
  {
    if peers != [] {
      WantedDescribes(peers[..|peers| - 1], live, handshakes, now, keepalive);
    }
  }

  // ----- The preflight -----

  predicate Clashes(p: Prefix, key: Key, owners: map<Prefix, Key>) {
    exists q :: q in owners && Overlaps(q, p) && owners[q] != key
  }

  method FindClash(p: Prefix, key: Key, owners: map<Prefix, Key>) returns (clash: bool)
    ensures clash <==> Clashes(p, key, owners)
  {
    var todo := owners.Keys;
    while todo != {}
      invariant todo <= owners.Keys
      invariant forall q | q in owners.Keys - todo :: !(Overlaps(q, p) && owners[q] != key)
      decreases |todo|
    {
      var q :| q in todo;
      if Overlaps(q, p) && owners[q] != key {
        return true;
      }
      todo := todo - {q};
    }
    return false;
  }

  lemma {:induction false} CanonHit(nets: seq<IPNet>, i: nat)
    requires i < |nets|
    ensures CanonicalPrefix(nets[i]) in Canon(nets)
  {
    if i < |nets| - 1 {
      assert nets[..|nets| - 1][i] == nets[i];
      CanonHit(nets[..|nets| - 1], i);
    }
  }

  lemma {:induction false} OtherSourcesHit(live: seq<Peer>, key: Key, j: nat)
    requires j < |live| && live[j].key != key
    ensures Canon(live[j].allowed) <= OtherSources(live, key)
  {
    if j < |live| - 1 {
      assert live[..|live| - 1][j] == live[j];
      OtherSourcesHit(live[..|live| - 1], key, j);
    }
  }

  method FindSource(p: Prefix, sources: seq<IPNet>) returns (clash: bool)
    ensures clash <==> OverlapsSome(p, Canon(sources))
  {
    for i := 0 to |sources|
      invariant !OverlapsSome(p, Canon(sources[..i]))
    {
      assert sources[..i + 1][..i] == sources[..i];
      if Overlaps(CanonicalPrefix(sources[i]), p) {
        CanonHit(sources, i);
        return true;
      }
    }
    assert sources[..|sources|] == sources;
    return false;
  }

  method FindLiveClash(p: Prefix, key: Key, live: seq<Peer>) returns (clash: bool)
    ensures clash <==> OverlapsSome(p, OtherSources(live, key))
  {
    for j := 0 to |live|
      invariant !OverlapsSome(p, OtherSources(live[..j], key))
    {
      assert live[..j + 1][..j] == live[..j];
      if live[j].key == key {
        continue;
      }
      var taken := FindSource(p, live[j].allowed);
      if taken {
        OtherSourcesHit(live, key, j);
        return true;
      }
    }
    assert live[..|live|] == live;
    return false;
  }

  /** `owners` is `known` with further prefixes of `key`. */
  ghost predicate Grown(owners: map<Prefix, Key>, known: map<Prefix, Key>, key: Key) {
    && known.Keys <= owners.Keys && key !in known.Values
    && forall q | q in owners :: if q in known then owners[q] == known[q] else owners[q] == key
  }

  lemma OnlyKnownClash(p: Prefix, key: Key, owners: map<Prefix, Key>, known: map<Prefix, Key>)
    requires Grown(owners, known, key)
    ensures Clashes(p, key, owners) <==> OverlapsSome(p, known.Keys)
  {
    assert forall q | q in known :: known[q] in known.Values && owners[q] != key;
  }

  method CheckEntry(n: IPNet, key: Key, owners: map<Prefix, Key>, live: seq<Peer>, refused: set<Prefix>,
                    ghost known: map<Prefix, Key>)
    returns (ok: bool)
    requires Grown(owners, known, key)
    ensures ok <==> EntryAllowed(n, key, known.Keys, live, refused)
    ensures ok ==> CanonicalPrefix(n) !in known
  {
    var prefix := CanonicalPrefix(n);
    if !Canonical(n) {
      return false;
    }
    var clash := FindClash(prefix, key, owners);
    OnlyKnownClash(prefix, key, owners, known);
    assert Overlaps(prefix, prefix);
    if clash {
      return false;
    }
    var taken := FindLiveClash(prefix, key, live);
    ok := !taken && prefix !in refused;
  }

  ghost predicate Entered(owners: map<Prefix, Key>, known: map<Prefix, Key>, added: set<Prefix>) {
    forall q :: q in owners <==> q in known || q in added
  }

  /** One neighbor's sources, entered into `owners` as they pass. */
  method AdmitSources(nets: seq<IPNet>, key: Key, known: map<Prefix, Key>, live: seq<Peer>, refused: set<Prefix>)
    returns (ok: bool, owners: map<Prefix, Key>)
    requires key !in known.Values
    ensures ok <==> EntriesAllowed(nets, key, known.Keys, live, refused)
    ensures ok ==> Entered(owners, known, Canon(nets)) && Grown(owners, known, key)
  {
    owners := known;
    for i := 0 to |nets|
      invariant forall j | 0 <= j < i :: EntryAllowed(nets[j], key, known.Keys, live, refused)
      invariant Entered(owners, known, Canon(nets[..i]))
      invariant Grown(owners, known, key)
    {
      assert nets[..i + 1][..i] == nets[..i];
      var allowed := CheckEntry(nets[i], key, owners, live, refused, known);
      if !allowed {
        return false, owners;
      }
      owners := owners[CanonicalPrefix(nets[i]) := key];
    }
    assert nets[..|nets|] == nets;
    ok := true;
  }

  method AdmitNeighbor(n: Neighbor, known: map<Prefix, Key>, live: seq<Peer>, own: Key, refused: set<Prefix>,
                       earlier: seq<Neighbor>)
    returns (ok: bool, owners: map<Prefix, Key>)
    requires known.Keys == Sources(earlier) && known.Values <= Keys(earlier)
    ensures ok <==> NeighborAllowed(n, earlier, live, own, refused)
    ensures ok ==> owners.Keys == Sources(earlier) + Canon(n.allowed) && owners.Values <= Keys(earlier) + {n.key}
  {
    owners := known;
    if n.key == own || n.key in Keys(earlier) || !n.remote || n.transit || n.endpoint.None? {
      return false, owners;
    }
    ok, owners := AdmitSources(n.allowed, n.key, known, live, refused);
    if !ok || n.allowed == [] {
      return false, owners;
    }
    var before := Find(live, n.key);
    if before.Some? {
      var withdrawal := Withdraws(Canon(before.value.allowed), Canon(n.allowed));
      ok := !withdrawal;
    }
  }

  ghost predicate OwnersOf(owners: map<Prefix, Key>, peers: seq<Neighbor>) {
    owners.Keys == Sources(peers) && owners.Values <= Keys(peers)
  }

  method AdmitNext(peers: seq<Neighbor>, k: nat, known: map<Prefix, Key>, live: seq<Peer>, own: Key,
                   refused: set<Prefix>)
    returns (ok: bool, owners: map<Prefix, Key>)
    requires k < |peers| && Admitted(peers[..k], live, own, refused) && OwnersOf(known, peers[..k])
    ensures if ok then Admitted(peers[..k + 1], live, own, refused) else !Admitted(peers, live, own, refused)
    ensures ok ==> OwnersOf(owners, peers[..k + 1])
  {
    ok, owners := AdmitNeighbor(peers[k], known, live, own, refused, peers[..k]);
    assert peers[..k + 1][..k] == peers[..k];
    if !ok && Admitted(peers, live, own, refused) {
      AdmittedAt(peers, live, own, refused, k);
      assert false;
    }
  }

  /** The neighbor partition preflight: all of `peers`, or nothing. */
  method Preflight(peers: seq<Neighbor>, live: seq<Peer>, own: Key, refused: set<Prefix>,
                   handshakes: map<Key, int>, now: int, keepalive: nat) returns (wanted: Option<seq<PeerConfig>>)
    ensures wanted.Some? <==> Admitted(peers, live, own, refused)
    ensures wanted.Some? ==> wanted.value == Wanted(peers, live, handshakes, now, keepalive)
  {
    var owners: map<Prefix, Key> := map[];
    var plan: seq<PeerConfig> := [];
    for k := 0 to |peers|
      invariant Admitted(peers[..k], live, own, refused) && OwnersOf(owners, peers[..k])
      invariant plan == Wanted(peers[..k], live, handshakes, now, keepalive)
    {
      var ok;
      ok, owners := AdmitNext(peers, k, owners, live, own, refused);
      if !ok {
        return None;
      }
      assert peers[..k + 1][..k] == peers[..k];
      plan := plan + [WantedPeer(peers[k], live, handshakes, now, keepalive)];
    }
    assert peers[..|peers|] == peers;
    return Some(plan);
  }

  // ----- The partition and the whole device -----

  function Partition(live: seq<Peer>, selected: set<Key>): seq<Peer> {
    if live == [] then []
    else
      var last := live[|live| - 1];
      Partition(live[..|live| - 1], selected) + if last.key in selected then [last] else []
  }

  /** Plans on the selected peers only. */
  method PlanPartition(wanted: seq<PeerConfig>, live: Device) returns (delta: Config, changed: bool)
    ensures delta == Delta(Config(None, None, None, wanted), live.(peers := Partition(live.peers, Named(wanted))))
    ensures changed <==> Changes(delta)
  {
    var selected := Named(wanted);
    var peers: seq<Peer> := [];
    for k := 0 to |live.peers|
      invariant peers == Partition(live.peers[..k], selected)
    {
      assert live.peers[..k + 1][..k] == live.peers[..k];
      if live.peers[k].key in selected {
        peers := peers + [live.peers[k]];
      }
    }
    assert live.peers[..|live.peers|] == live.peers;
    delta, changed := PlanDevice(Config(None, None, None, wanted), live.(peers := peers));
  }

  lemma {:induction false} FindInPartition(live: seq<Peer>, selected: set<Key>, key: Key)
    ensures Find(Partition(live, selected), key) == if key in selected then Find(live, key) else None
  {
    if live != [] {
      var front, last := live[..|live| - 1], live[|live| - 1];
      FindInPartition(front, selected, key);
      if last.key in selected {
        var part := Partition(live, selected);
        assert part[..|part| - 1] == Partition(front, selected);
      } else {
        assert Partition(live, selected) == Partition(front, selected);
      }
    }
  }

  lemma {:induction false} KeptInPartition(pcs: seq<PeerConfig>, live: seq<Peer>, selected: set<Key>)
    requires Named(pcs) <= selected
    ensures Kept(pcs, Partition(live, selected)) == Kept(pcs, live)
  {
    if pcs != [] {
      KeptInPartition(pcs[..|pcs| - 1], live, selected);
      FindInPartition(live, selected, pcs[|pcs| - 1].key);
    }
  }

  lemma NothingRemoved(live: seq<Peer>, selected: set<Key>)
    ensures Removals(selected, Partition(live, selected)) == []
  {
    forall key
      ensures Find(Partition(live, selected), key).Some? ==> key in selected
    {
      FindInPartition(live, selected, key);
    }
    NoRemovals(selected, Partition(live, selected));
  }

  /** Selected peers keep what they had, so their accept lists are never replaced. */
  ghost predicate Gentle(delta: seq<PeerConfig>, live: seq<Peer>) {
    forall i | 0 <= i < |delta| :: !delta[i].remove && (Find(live, delta[i].key).Some? ==> !delta[i].replace)
  }

  lemma {:induction false} KeptIsGentle(pcs: seq<PeerConfig>, live: seq<Peer>)
    requires DistinctConfigs(pcs)
    requires forall i | 0 <= i < |pcs| :: !pcs[i].remove
    requires forall i | 0 <= i < |pcs| && Find(live, pcs[i].key).Some? ::
               Canon(Find(live, pcs[i].key).value.allowed) <= Canon(pcs[i].allowed)
    ensures Gentle(Kept(pcs, live), live)
  {
    if pcs != [] {
      var front, pc := pcs[..|pcs| - 1], pcs[|pcs| - 1];
      assert forall i | 0 <= i < |front| :: front[i] == pcs[i];
      KeptIsGentle(front, live);
      NamedIff(front, pc.key);
      assert forall i | 0 <= i < |front| :: front[i].key != pc.key;
      assert Gentle(Planned(pc, live, Named(front)), live);
    }
  }

  lemma {:induction false} SourcesHit(peers: seq<Neighbor>, i: nat)
    requires i < |peers|
    ensures Canon(peers[i].allowed) <= Sources(peers) && peers[i].key in Keys(peers)
  {
    if i < |peers| - 1 {
      assert peers[..|peers| - 1][i] == peers[i];
      SourcesHit(peers[..|peers| - 1], i);
    }
  }

  lemma {:induction false} AllowedAvoids(nets: seq<IPNet>, key: Key, earlier: set<Prefix>, live: seq<Peer>,
                                         refused: set<Prefix>)
    requires EntriesAllowed(nets, key, earlier, live, refused)
    ensures Canon(nets) !! earlier && Canon(nets) !! OtherSources(live, key)
  {
    if nets != [] {
      AllowedAvoids(nets[..|nets| - 1], key, earlier, live, refused);
      var p := CanonicalPrefix(nets[|nets| - 1]);
      assert Overlaps(p, p);
    }
  }

  /** An admitted partition meets what the device delta asks of a configuration. */
  lemma AdmittedIsPlannable(peers: seq<Neighbor>, live: seq<Peer>, own: Key, refused: set<Prefix>,
                            handshakes: map<Key, int>, now: int, keepalive: nat)
    requires Admitted(peers, live, own, refused)
    ensures var wanted := Wanted(peers, live, handshakes, now, keepalive);
            DistinctConfigs(wanted) && DisjointAccepts(wanted) && Complete(wanted)
  {
    WantedDescribes(peers, live, handshakes, now, keepalive);
    forall i, j | 0 <= i < j < |peers|
      ensures peers[i].key != peers[j].key && Canon(peers[i].allowed) !! Canon(peers[j].allowed)
    {
      assert peers[..j][i] == peers[i];
      SourcesHit(peers[..j], i);
      AdmittedAt(peers, live, own, refused, j);
      AllowedAvoids(peers[j].allowed, peers[j].key, Sources(peers[..j]), live, refused);
    }
  }

  /** The planned requests, read as a whole. */
  ghost predicate PartitionPlan(delta: Config, peers: seq<Neighbor>, live: Device, handshakes: map<Key, int>,
                                now: int, keepalive: nat) {
    var wanted := Wanted(peers, live.peers, handshakes, now, keepalive);
    delta == Delta(Config(None, None, None, wanted), live.(peers := Partition(live.peers, Named(wanted))))
  }

  lemma PlanIsKept(delta: Config, peers: seq<Neighbor>, live: Device, own: Key, refused: set<Prefix>,
                   handshakes: map<Key, int>, now: int, keepalive: nat)
    requires Admitted(peers, live.peers, own, refused) && PartitionPlan(delta, peers, live, handshakes, now, keepalive)
    ensures delta.peers == Kept(Wanted(peers, live.peers, handshakes, now, keepalive), live.peers)
  {
    var wanted := Wanted(peers, live.peers, handshakes, now, keepalive);
    NothingRemoved(live.peers, Named(wanted));
    KeptInPartition(wanted, live.peers, Named(wanted));
  }

  /** An admitted plan removes nobody and replaces no existing peer's accept list. */
  lemma PlanIsGentle(delta: Config, peers: seq<Neighbor>, live: Device, own: Key, refused: set<Prefix>,
                     handshakes: map<Key, int>, now: int, keepalive: nat)
    requires Admitted(peers, live.peers, own, refused) && PartitionPlan(delta, peers, live, handshakes, now, keepalive)
    ensures delta.privateKey.None? && delta.listenPort.None? && delta.mark.None?
    ensures Gentle(delta.peers, live.peers)
  {
    var wanted := Wanted(peers, live.peers, handshakes, now, keepalive);
    PlanIsKept(delta, peers, live, own, refused, handshakes, now, keepalive);
    AdmittedIsPlannable(peers, live.peers, own, refused, handshakes, now, keepalive);
    WantedDescribes(peers, live.peers, handshakes, now, keepalive);
    forall i | 0 <= i < |wanted| && Find(live.peers, wanted[i].key).Some?
      ensures Canon(Find(live.peers, wanted[i].key).value.allowed) <= Canon(wanted[i].allowed)
    {
      AdmittedAt(peers, live.peers, own, refused, i);
    }
    KeptIsGentle(wanted, live.peers);
  }

  lemma {:induction false} FindIsOther(live: seq<Peer>, key: Key, q: Key)
    requires q != key && Find(live, q).Some?
    ensures Canon(Find(live, q).value.allowed) <= OtherSources(live, key)
  {
    var front, last := live[..|live| - 1], live[|live| - 1];
    if last.key != q {
      FindIsOther(front, key, q);
    }
  }

  lemma AdmittedAvoids(peers: seq<Neighbor>, live: seq<Peer>, own: Key, refused: set<Prefix>, i: nat, q: Key)
    requires Admitted(peers, live, own, refused) && i < |peers| && Find(live, q).Some? && q != peers[i].key
    ensures Canon(peers[i].allowed) !! Canon(Find(live, q).value.allowed)
  {
    AdmittedAt(peers, live, own, refused, i);
    AllowedAvoids(peers[i].allowed, peers[i].key, Sources(peers[..i]), live, refused);
    FindIsOther(live, peers[i].key, q);
  }

  /** No admitted prefix belongs to an unselected live peer. */
  lemma GivenAvoids(peers: seq<Neighbor>, live: seq<Peer>, own: Key, refused: set<Prefix>, handshakes: map<Key, int>,
                    now: int, keepalive: nat, q: Key)
    requires Admitted(peers, live, own, refused) && Find(live, q).Some?
    requires q !in Named(Wanted(peers, live, handshakes, now, keepalive))
    ensures Given(Wanted(peers, live, handshakes, now, keepalive)) !! Canon(Find(live, q).value.allowed)
  {
    var wanted := Wanted(peers, live, handshakes, now, keepalive);
    WantedDescribes(peers, live, handshakes, now, keepalive);
    NamedIff(wanted, q);
    forall i | 0 <= i < |wanted|
      ensures Canon(wanted[i].allowed) !! Canon(Find(live, q).value.allowed)
    {
      AdmittedAvoids(peers, live, own, refused, i, q);
    }
    GivenDisjoint(wanted, Canon(Find(live, q).value.allowed));
  }

  ghost predicate Gained(t: Kernel, k: Kernel, pc: PeerConfig) {
    && pc.key in t && t[pc.key].allowed == Canon(pc.allowed) && Existing(k, pc.key).allowed <= t[pc.key].allowed
    && t[pc.key].endpoint == OrElse(pc.endpoint, Existing(k, pc.key).endpoint)
  }

  /** The device after the plan. */
  ghost predicate OnlyGained(t: Kernel, k: Kernel, wanted: seq<PeerConfig>) {
    && t.Keys == k.Keys + Named(wanted)
    && (forall q | q in k && q !in Named(wanted) :: t[q] == k[q])
    && (forall i | 0 <= i < |wanted| :: Gained(t, k, wanted[i]))
  }

  lemma UnselectedUnchanged(k: Kernel, peers: seq<Neighbor>, live: seq<Peer>, own: Key, refused: set<Prefix>,
                            handshakes: map<Key, int>, now: int, keepalive: nat, q: Key)
    requires Snapshot(k, live) && Admitted(peers, live, own, refused)
    requires q in k && q !in Named(Wanted(peers, live, handshakes, now, keepalive))
    ensures var t := ApplyPeers(k, Wanted(peers, live, handshakes, now, keepalive)); q in t && t[q] == k[q]
  {
    var wanted := Wanted(peers, live, handshakes, now, keepalive);
    ApplyPeersInvariant(k, wanted);
    GivenAvoids(peers, live, own, refused, handshakes, now, keepalive, q);
    assert k[q].allowed - Given(wanted) == k[q].allowed;
  }

  lemma SelectedOnlyGains(k: Kernel, peers: seq<Neighbor>, live: seq<Peer>, own: Key, refused: set<Prefix>, i: nat)
    requires Snapshot(k, live) && Admitted(peers, live, own, refused) && i < |peers|
    ensures Existing(k, peers[i].key).allowed <= Canon(peers[i].allowed)
  {
    AdmittedAt(peers, live, own, refused, i);
  }

  lemma SelectedGained(k: Kernel, peers: seq<Neighbor>, live: seq<Peer>, own: Key, refused: set<Prefix>,
                       wanted: seq<PeerConfig>)
    requires Snapshot(k, live) && Admitted(peers, live, own, refused) && Describes(wanted, peers)
    requires DistinctConfigs(wanted) && DisjointAccepts(wanted) && Complete(wanted)
    ensures forall i | 0 <= i < |wanted| :: Gained(ApplyPeers(k, wanted), k, wanted[i])
  {
    EveryEntryInstalled(k, wanted);
    forall i | 0 <= i < |wanted|
      ensures Gained(ApplyPeers(k, wanted), k, wanted[i])
    {
      SelectedOnlyGains(k, peers, live, own, refused, i);
      assert {} + Canon(wanted[i].allowed) == Canon(wanted[i].allowed);
    }
  }

  /**
   Applied to the whole device, the plan gives every selected peer exactly its admitted sources,
   none of which it loses, and leaves every other peer as it was.
   */
  lemma PlanOnlyAdds(k: Kernel, delta: Config, peers: seq<Neighbor>, live: Device, own: Key, refused: set<Prefix>,
                     handshakes: map<Key, int>, now: int, keepalive: nat)
    requires Snapshot(k, live.peers) && Admitted(peers, live.peers, own, refused)
    requires PartitionPlan(delta, peers, live, handshakes, now, keepalive)
    ensures OnlyGained(ApplyPeers(k, delta.peers), k, Wanted(peers, live.peers, handshakes, now, keepalive))
  {
    var wanted := Wanted(peers, live.peers, handshakes, now, keepalive);
    var t := ApplyPeers(k, wanted);
    AdmittedIsPlannable(peers, live.peers, own, refused, handshakes, now, keepalive);
    assert ApplyPeers(k, delta.peers) == t by {
      PlanIsKept(delta, peers, live, own, refused, handshakes, now, keepalive);
      KeptEquivalent(k, wanted, live.peers);
    }
    KeysAfter(k, wanted);
    forall q | q in k && q !in Named(wanted)
      ensures t[q] == k[q]
    {
      UnselectedUnchanged(k, peers, live.peers, own, refused, handshakes, now, keepalive, q);
    }
    WantedDescribes(peers, live.peers, handshakes, now, keepalive);
    SelectedGained(k, peers, live.peers, own, refused, wanted);
  }

  lemma {:induction false} WantedAt(peers: seq<Neighbor>, live: seq<Peer>, handshakes: map<Key, int>, now: int,
                                    keepalive: nat, i: nat)
    requires i < |peers|
    ensures |Wanted(peers, live, handshakes, now, keepalive)| == |peers|
    ensures Wanted(peers, live, handshakes, now, keepalive)[i] == WantedPeer(peers[i], live, handshakes, now, keepalive)
  {
    WantedDescribes(peers, live, handshakes, now, keepalive);
    if i < |peers| - 1 {
      var front := peers[..|peers| - 1];
      assert front[i] == peers[i];
      WantedDescribes(front, live, handshakes, now, keepalive);
      WantedAt(front, live, handshakes, now, keepalive, i);
    } else {
      WantedDescribes(peers[..|peers| - 1], live, handshakes, now, keepalive);
    }
  }

  /** The neighbor's last handshake through an endpoint of its own is recent. */
  predicate Established(k: Kernel, key: Key, handshakes: map<Key, int>, now: int) {
    && key in k && k[key].endpoint.Some?
    && key in handshakes && handshakes[key] <= now <= handshakes[key] + HANDSHAKE_MAX_AGE
  }

  /** The endpoint of a neighbor with a recent handshake survives the plan, whatever is published. */
  lemma EstablishedEndpointIsKept(k: Kernel, delta: Config, peers: seq<Neighbor>, live: Device, own: Key,
                                  refused: set<Prefix>, handshakes: map<Key, int>, now: int, keepalive: nat, i: nat)
    requires Snapshot(k, live.peers) && Admitted(peers, live.peers, own, refused)
    requires PartitionPlan(delta, peers, live, handshakes, now, keepalive)
    requires i < |peers| && Established(k, peers[i].key, handshakes, now)
    ensures var t := ApplyPeers(k, delta.peers);
            peers[i].key in t && t[peers[i].key].endpoint == k[peers[i].key].endpoint
  {
    var wanted := Wanted(peers, live.peers, handshakes, now, keepalive);
    PlanOnlyAdds(k, delta, peers, live, own, refused, handshakes, now, keepalive);
    WantedAt(peers, live.peers, handshakes, now, keepalive, i);
    FoundKey(live.peers, peers[i].key);
    assert Gained(ApplyPeers(k, delta.peers), k, wanted[i]);
  }

  /** Any other neighbor gets the published endpoint, or keeps what it had where none is published. */
  lemma PublishedEndpointIsInstalled(k: Kernel, delta: Config, peers: seq<Neighbor>, live: Device, own: Key,
                                     refused: set<Prefix>, handshakes: map<Key, int>, now: int, keepalive: nat,
                                     i: nat)
    requires Snapshot(k, live.peers) && Admitted(peers, live.peers, own, refused)
    requires PartitionPlan(delta, peers, live, handshakes, now, keepalive)
    requires i < |peers| && !Established(k, peers[i].key, handshakes, now)
    ensures var t := ApplyPeers(k, delta.peers);
            && peers[i].key in t
            && t[peers[i].key].endpoint ==
                 match peers[i].endpoint
                 case Some(published) => Some(published)
                 case None => if peers[i].key in k then k[peers[i].key].endpoint else None
  {
    var wanted := Wanted(peers, live.peers, handshakes, now, keepalive);
    PlanOnlyAdds(k, delta, peers, live, own, refused, handshakes, now, keepalive);
    WantedAt(peers, live.peers, handshakes, now, keepalive, i);
    FoundKey(live.peers, peers[i].key);
    assert Gained(ApplyPeers(k, delta.peers), k, wanted[i]);
  }

  lemma {:induction false} FoundKey(live: seq<Peer>, key: Key)
    ensures Find(live, key).Some? ==> Find(live, key).value.key == key
  {
    if live != [] {
      FoundKey(live[..|live| - 1], key);
    }
  }
}
