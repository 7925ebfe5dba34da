/**
 The device delta planner, and why sending the delta is as good as sending everything.

 A WireGuard device keeps each prefix in the accept list of at most one peer: giving a
 prefix to a peer takes it from whoever had it. The planner leaves out everything the live
 device already has. The main result is that applying its output, in order, leaves the
 device exactly as applying the complete configuration would.
 */
module DeviceDelta {
  import opened Options
  import opened Prefixes

  type Key = string

  /** An address with a mask; only the masked part names the prefix. */
  datatype IPNet = IPNet(family: Family, ip: seq<bool>, ones: nat)

  function CanonicalPrefix(n: IPNet): Prefix {
    Prefix(n.family, if n.ones <= |n.ip| then n.ip[..n.ones] else n.ip)
  }

  /** Nets name the same prefix exactly when they agree on what their masks keep. */
  lemma SamePrefixIff(a: IPNet, b: IPNet)
    requires a.ones <= |a.ip| && b.ones <= |b.ip|
    ensures CanonicalPrefix(a) == CanonicalPrefix(b) <==>
            a.family == b.family && a.ones == b.ones && forall i | 0 <= i < a.ones :: a.ip[i] == b.ip[i]
  {
    if a.ones == b.ones && forall i | 0 <= i < a.ones :: a.ip[i] == b.ip[i] {
      assert a.ip[..a.ones] == b.ip[..b.ones];
    }
    if CanonicalPrefix(a) == CanonicalPrefix(b) {
      assert forall i | 0 <= i < a.ones :: a.ip[i] == CanonicalPrefix(a).bits[i] == CanonicalPrefix(b).bits[i];
    }
  }

  function Canon(nets: seq<IPNet>): set<Prefix> {
    if nets == [] then {} else Canon(nets[..|nets| - 1]) + {CanonicalPrefix(nets[|nets| - 1])}
  }

  datatype PeerConfig = PeerConfig(
    key: Key, remove: bool, psk: Option<string>, endpoint: Option<string>, keepalive: Option<nat>,
    replace: bool, allowed: seq<IPNet>)

  datatype Peer = Peer(key: Key, psk: Option<string>, endpoint: Option<string>, keepalive: nat, allowed: seq<IPNet>)

  datatype Config = Config(privateKey: Option<string>, listenPort: Option<nat>, mark: Option<nat>,
                           peers: seq<PeerConfig>)

  datatype Device = Device(privateKey: string, listenPort: nat, mark: nat, peers: seq<Peer>)

  // ----- What the kernel does -----

  datatype KernelPeer = KernelPeer(psk: Option<string>, endpoint: Option<string>, keepalive: nat, allowed: set<Prefix>)

  type Kernel = map<Key, KernelPeer>

  function Or<T>(named: Option<T>, otherwise: T): T {
    if named.Some? then named.value else otherwise
  }

  function OrElse<T>(named: Option<T>, otherwise: Option<T>): Option<T> {
    if named.Some? then named else otherwise
  }

  function Existing(k: Kernel, key: Key): KernelPeer {
    if key in k then k[key] else KernelPeer(None, None, 0, {})
  }

  function Configured(before: KernelPeer, pc: PeerConfig): KernelPeer {
    KernelPeer(OrElse(pc.psk, before.psk), OrElse(pc.endpoint, before.endpoint), Or(pc.keepalive, before.keepalive),
               (if pc.replace then {} else before.allowed) + Canon(pc.allowed))
  }

  function Without(p: KernelPeer, taken: set<Prefix>): KernelPeer {
    p.(allowed := p.allowed - taken)
  }

  /** One peer entry of a configuration request: named fields change, and its prefixes move to it. */
  function ApplyPeer(k: Kernel, pc: PeerConfig): Kernel {
    if pc.remove then k - {pc.key}
    else
      var others := map q | q in k && q != pc.key :: Without(k[q], Canon(pc.allowed));
      others[pc.key := Configured(Existing(k, pc.key), pc)]
  }

  function ApplyPeers(k: Kernel, pcs: seq<PeerConfig>): Kernel {
    if pcs == [] then k
    else ApplyPeer(ApplyPeers(k, pcs[..|pcs| - 1]), pcs[|pcs| - 1])
  }

  /** One owner per prefix. */
  ghost predicate Exclusive(k: Kernel) {
    forall a, b | a in k && b in k && a != b :: k[a].allowed !! k[b].allowed
  }

  function Loaded(p: Peer): KernelPeer {
    KernelPeer(p.psk, p.endpoint, p.keepalive, Canon(p.allowed))
  }

  ghost predicate DistinctPeers(peers: seq<Peer>) {
    forall i, j | 0 <= i < j < |peers| :: peers[i].key != peers[j].key
  }

  ghost predicate DistinctConfigs(pcs: seq<PeerConfig>) {
    forall i, j | 0 <= i < j < |pcs| :: pcs[i].key != pcs[j].key
  }

  /** No two desired accept lists share a prefix. */
  ghost predicate DisjointAccepts(pcs: seq<PeerConfig>) {
    forall i, j | 0 <= i < j < |pcs| :: Canon(pcs[i].allowed) !! Canon(pcs[j].allowed)
  }

  function Find(peers: seq<Peer>, key: Key): Option<Peer> {
    if peers == [] then None
    else if peers[|peers| - 1].key == key then Some(peers[|peers| - 1])
    else Find(peers[..|peers| - 1], key)
  }

  /** `k` is the kernel's own view of the device the planner read. */
  ghost predicate Snapshot(k: Kernel, peers: seq<Peer>) {
    && DistinctPeers(peers)
    && Exclusive(k)
    && forall key :: (key in k <==> Find(peers, key).Some?) && (key in k ==> k[key] == Loaded(Find(peers, key).value))
  }

  // ----- The planner -----

  /** The desired prefixes the peer does not have yet, each once, in order. */
  function Added(previous: set<Prefix>, wanted: seq<IPNet>): seq<IPNet> {
    if wanted == [] then []
    else
      var front, last := wanted[..|wanted| - 1], wanted[|wanted| - 1];
      Added(previous, front) + if CanonicalPrefix(last) in previous + Canon(front) then [] else [last]
  }

  function PeerDelta(pc: PeerConfig, before: Peer): PeerConfig {
    var withdrawal := !(Canon(before.allowed) <= Canon(pc.allowed));
    pc.(endpoint := if pc.endpoint == before.endpoint then None else pc.endpoint,
        keepalive := if pc.keepalive == Some(before.keepalive) then None else pc.keepalive,
        replace := pc.replace && withdrawal,
        allowed := if pc.replace && !withdrawal then Added(Canon(before.allowed), pc.allowed) else pc.allowed)
  }

  predicate Matters(pc: PeerConfig) {
    pc.remove || pc.psk.Some? || pc.endpoint.Some? || pc.keepalive.Some? || pc.replace || pc.allowed != []
  }

  /** A key the device has is planned once; any later entry for it counts as a new peer. */
  function Planned(pc: PeerConfig, peers: seq<Peer>, done: set<Key>): seq<PeerConfig> {
    var before := Find(peers, pc.key);
    if before.None? || pc.key in done then [pc]
    else if Matters(PeerDelta(pc, before.value)) then [PeerDelta(pc, before.value)]
    else []
  }

  function Kept(pcs: seq<PeerConfig>, peers: seq<Peer>): seq<PeerConfig> {
    if pcs == [] then []
    else
      var front := pcs[..|pcs| - 1];
      Kept(front, peers) + Planned(pcs[|pcs| - 1], peers, Named(front))
  }

  function Removal(key: Key): PeerConfig {
    PeerConfig(key, true, None, None, None, false, [])
  }

  /** Peers of the device that the configuration does not name, in device order. */
  function Removals(keys: set<Key>, peers: seq<Peer>): seq<PeerConfig> {
    if peers == [] then []
    else
      var last := peers[|peers| - 1];
      Removals(keys, peers[..|peers| - 1]) + if last.key in keys then [] else [Removal(last.key)]
  }

  function Named(pcs: seq<PeerConfig>): set<Key> {
    if pcs == [] then {} else Named(pcs[..|pcs| - 1]) + {pcs[|pcs| - 1].key}
  }

  function Delta(want: Config, live: Device): Config {
    Config(if want.privateKey == Some(live.privateKey) then None else want.privateKey,
           if want.listenPort == Some(live.listenPort) then None else want.listenPort,
           if want.mark == Some(live.mark) then None else want.mark,
           Kept(want.peers, live.peers) + Removals(Named(want.peers), live.peers))
  }

  predicate Changes(c: Config) {
    c.privateKey.Some? || c.listenPort.Some? || c.mark.Some? || c.peers != []
  }

  /** Whether replacing the accept list would take something away. */
  method Withdraws(previous: set<Prefix>, desired: set<Prefix>) returns (withdrawal: bool)
    ensures withdrawal <==> !(previous <= desired)
  {
    var todo := previous;
    while todo != {}
      invariant todo <= previous
      invariant previous - todo <= desired
      decreases |todo|
    {
      var prefix :| prefix in todo;
      if prefix !in desired {
        return true;
      }
      todo := todo - {prefix};
    }
    return false;
  }

  method CollectAdded(previous: set<Prefix>, wanted: seq<IPNet>) returns (added: seq<IPNet>)
    ensures added == Added(previous, wanted)
  {
    added := [];
    var known := previous;
    for k := 0 to |wanted|
      invariant known == previous + Canon(wanted[..k])
      invariant added == Added(previous, wanted[..k])
    {
      assert wanted[..k + 1][..k] == wanted[..k];
      var prefix := CanonicalPrefix(wanted[k]);
      if prefix !in known {
        added := added + [wanted[k]];
        known := known + {prefix};
      }
    }
    assert wanted[..|wanted|] == wanted;
  }

  /** What the plan sends for a peer the device has. */
  method PlanPeer(before: Peer, want: PeerConfig) returns (peer: PeerConfig)
    ensures peer == PeerDelta(want, before)
  {
    peer := want;
    if peer.endpoint.Some? && before.endpoint.Some? && peer.endpoint.value == before.endpoint.value {
      peer := peer.(endpoint := None);
    }
    if peer.keepalive.Some? && peer.keepalive.value == before.keepalive {
      peer := peer.(keepalive := None);
    }
    if peer.replace {
      var previous, desired := Canon(before.allowed), Canon(peer.allowed);
      var withdrawal := Withdraws(previous, desired);
      if !withdrawal {
        var added := CollectAdded(previous, peer.allowed);
        peer := peer.(allowed := added, replace := false);
      }
    }
  }

  /** `current` maps the keys of `live` outside `done` to their peers. */
  ghost predicate Indexes(current: map<Key, Peer>, live: seq<Peer>, done: set<Key>) {
    forall key ::
      if Find(live, key).Some? && key !in done then key in current && current[key] == Find(live, key).value
      else key !in current
  }

  method IndexPeers(live: seq<Peer>) returns (current: map<Key, Peer>)
    ensures Indexes(current, live, {})
  {
    current := map[];
    for k := 0 to |live|
      invariant Indexes(current, live[..k], {})
    {
      assert live[..k + 1][..k] == live[..k];
      current := current[live[k].key := live[k]];
    }
    assert live[..|live|] == live;
  }

  method PlanWanted(want: seq<PeerConfig>, live: seq<Peer>, index: map<Key, Peer>)
    returns (peers: seq<PeerConfig>, current: map<Key, Peer>)
    requires Indexes(index, live, {})
    ensures peers == Kept(want, live) && Indexes(current, live, Named(want))
  {
    peers, current := [], index;
    for k := 0 to |want|
      invariant Indexes(current, live, Named(want[..k])) && peers == Kept(want[..k], live)
    {
      assert want[..k + 1][..k] == want[..k];
      var peer := want[k];
      if peer.key !in current {
        peers := peers + [peer];
        continue;
      }
      var before := current[peer.key];
      current := current - {peer.key};
      peer := PlanPeer(before, peer);
      if peer.remove || peer.psk.Some? || peer.endpoint.Some? || peer.keepalive.Some? || peer.replace ||
        |peer.allowed| > 0 {
        peers := peers + [peer];
      }
    }
    assert want[..|want|] == want;
  }

  method PlanRemovals(live: seq<Peer>, current: map<Key, Peer>, ghost named: set<Key>) returns (peers: seq<PeerConfig>)
    requires Indexes(current, live, named)
    ensures peers == Removals(named, live)
  {
    peers := [];
    for k := 0 to |live|
      invariant peers == Removals(named, live[..k])
    {
      assert live[..k + 1][..k] == live[..k];
      FindHit(live, k);
      if live[k].key in current {
        peers := peers + [Removal(live[k].key)];
      }
    }
    assert live[..|live|] == live;
  }

  method PlanPeers(want: seq<PeerConfig>, live: seq<Peer>) returns (peers: seq<PeerConfig>)
    ensures peers == Kept(want, live) + Removals(Named(want), live)
  {
    var index := IndexPeers(live);
    var kept, current := PlanWanted(want, live, index);
    var gone := PlanRemovals(live, current, Named(want));
    peers := kept + gone;
  }

  lemma {:induction false} FindHit(peers: seq<Peer>, i: nat)
    requires i < |peers|
    ensures Find(peers, peers[i].key).Some?
  {
    if i < |peers| - 1 {
      assert peers[..|peers| - 1][i] == peers[i];
      FindHit(peers[..|peers| - 1], i);
    }
  }

  method PlanDevice(want: Config, live: Device) returns (delta: Config, changed: bool)
    ensures delta == Delta(want, live) && Settings(delta, live) == Settings(want, live)
    ensures changed <==> Changes(delta)
  {
    var privateKey, listenPort, mark := want.privateKey, want.listenPort, want.mark;
    if privateKey.Some? && privateKey.value == live.privateKey {
      privateKey := None;
    }
    if listenPort.Some? && listenPort.value == live.listenPort {
      listenPort := None;
    }
    if mark.Some? && mark.value == live.mark {
      mark := None;
    }
    var peers := PlanPeers(want.peers, live.peers);
    delta := Config(privateKey, listenPort, mark, peers);
    changed := privateKey.Some? || listenPort.Some? || mark.Some? || |peers| > 0;
  }

  // ----- The delta preserves meaning -----

  lemma {:induction false} AddedCanon(previous: set<Prefix>, wanted: seq<IPNet>)
    ensures Canon(Added(previous, wanted)) == Canon(wanted) - previous
  {
    if wanted != [] {
      var front, last := wanted[..|wanted| - 1], wanted[|wanted| - 1];
      AddedCanon(previous, front);
      if CanonicalPrefix(last) in previous + Canon(front) {
        assert Added(previous, wanted) == Added(previous, front);
      } else {
        var added := Added(previous, wanted);
        assert added[..|added| - 1] == Added(previous, front);
      }
    }
  }

  /** Every entry only ever gives a prefix to one peer. */
  lemma ApplyPeerExclusive(k: Kernel, pc: PeerConfig)
    requires Exclusive(k)
    ensures Exclusive(ApplyPeer(k, pc))
  {
    var t := ApplyPeer(k, pc);
    forall a, b | a in t && b in t && a != b
      ensures t[a].allowed !! t[b].allowed
    {
      assert a != pc.key ==> t[a].allowed <= Existing(k, a).allowed;
      assert b != pc.key ==> t[b].allowed <= Existing(k, b).allowed;
    }
  }

  /** `now` is `before` minus prefixes that other peers have been given since. */
  ghost predicate OnlyLost(now: KernelPeer, before: KernelPeer, given: set<Prefix>) {
    now == Without(before, given)
  }

  /** Entries that configure their peer alike and take the same prefixes from others act alike. */
  lemma SameEffect(k: Kernel, pc: PeerConfig, pd: PeerConfig)
    requires pc.key == pd.key && pc.key in k && !pc.remove && !pd.remove
    requires Configured(k[pc.key], pc) == Configured(k[pc.key], pd)
    requires forall q | q in k && q != pc.key :: k[q].allowed * Canon(pc.allowed) == k[q].allowed * Canon(pd.allowed)
    ensures ApplyPeer(k, pc) == ApplyPeer(k, pd)
  {
    forall q | q in k && q != pc.key
      ensures Without(k[q], Canon(pc.allowed)) == Without(k[q], Canon(pd.allowed))
    {
      assert k[q].allowed - Canon(pc.allowed) == k[q].allowed - k[q].allowed * Canon(pc.allowed);
      assert k[q].allowed - Canon(pd.allowed) == k[q].allowed - k[q].allowed * Canon(pd.allowed);
    }
  }

  lemma SameConfigured(mine: KernelPeer, pc: PeerConfig, before: Peer, given: set<Prefix>)
    requires OnlyLost(mine, Loaded(before), given)
    requires Canon(pc.allowed) !! given
    ensures Configured(mine, pc) == Configured(mine, PeerDelta(pc, before))
    ensures Canon(PeerDelta(pc, before).allowed) <= Canon(pc.allowed)
    ensures Canon(pc.allowed) <= Canon(PeerDelta(pc, before).allowed) + mine.allowed
  {
    AddedCanon(Canon(before.allowed), pc.allowed);
  }

  /** The planned entry for a peer the device has acts on the kernel as the full entry does. */
  lemma PeerDeltaEquivalent(k: Kernel, pc: PeerConfig, before: Peer, given: set<Prefix>)
    requires Exclusive(k) && pc.key in k && OnlyLost(k[pc.key], Loaded(before), given)
    requires Canon(pc.allowed) !! given
    ensures ApplyPeer(k, pc) == ApplyPeer(k, PeerDelta(pc, before))
    ensures !Matters(PeerDelta(pc, before)) ==> ApplyPeer(k, pc) == k
  {
    var pd := PeerDelta(pc, before);
    if !pc.remove {
      SameConfigured(k[pc.key], pc, before, given);
      SameEffect(k, pc, pd);
      if !Matters(pd) {
        NothingHappens(k, pd);
      }
    }
  }

  lemma NothingHappens(k: Kernel, pd: PeerConfig)
    requires pd.key in k && !Matters(pd)
    ensures ApplyPeer(k, pd) == k
  {
    forall q | q in k
      ensures ApplyPeer(k, pd)[q] == k[q]
    {
      assert k[q].allowed + {} == k[q].allowed == k[q].allowed - {};
    }
  }

  /** The prefixes that entries hand to their peers. */
  function Given(pcs: seq<PeerConfig>): set<Prefix> {
    if pcs == [] then {}
    else
      var last := pcs[|pcs| - 1];
      Given(pcs[..|pcs| - 1]) + if last.remove then {} else Canon(last.allowed)
  }

  /** Before its own entry is reached, a peer of the device can only have lost prefixes. */
  ghost predicate Untouched(k: Kernel, start: Kernel, pcs: seq<PeerConfig>) {
    forall key | key !in Named(pcs) ::
      (key in k <==> key in start) && (key in k ==> OnlyLost(k[key], start[key], Given(pcs)))
  }

  lemma {:induction false} ApplyPeersInvariant(start: Kernel, pcs: seq<PeerConfig>)
    requires Exclusive(start)
    ensures Exclusive(ApplyPeers(start, pcs))
    ensures Untouched(ApplyPeers(start, pcs), start, pcs)
  {
    if pcs == [] {
      assert forall key | key in start :: start[key].allowed - {} == start[key].allowed;
    } else {
      var front, pc := pcs[..|pcs| - 1], pcs[|pcs| - 1];
      ApplyPeersInvariant(start, front);
      ApplyPeerExclusive(ApplyPeers(start, front), pc);
      var k, t := ApplyPeers(start, front), ApplyPeers(start, pcs);
      forall key | key !in Named(pcs)
        ensures (key in t <==> key in start) && (key in t ==> OnlyLost(t[key], start[key], Given(pcs)))
      {
        if key in t {
          assert start[key].allowed - Given(front) - Canon(pc.allowed) ==
            start[key].allowed - (Given(front) + Canon(pc.allowed));
        }
      }
    }
  }

  lemma {:induction false} NamedIff(pcs: seq<PeerConfig>, key: Key)
    ensures key in Named(pcs) <==> exists i :: 0 <= i < |pcs| && pcs[i].key == key
  {
    if pcs != [] {
      NamedIff(pcs[..|pcs| - 1], key);
      if key in Named(pcs) && key != pcs[|pcs| - 1].key {
        var i :| 0 <= i < |pcs| - 1 && pcs[..|pcs| - 1][i].key == key;
        assert pcs[i].key == key;
      }
    }
  }

  lemma {:induction false} GivenDisjoint(pcs: seq<PeerConfig>, taken: set<Prefix>)
    requires forall i | 0 <= i < |pcs| :: Canon(pcs[i].allowed) !! taken
    ensures Given(pcs) !! taken
  {
    if pcs != [] {
      GivenDisjoint(pcs[..|pcs| - 1], taken);
    }
  }

  /** What distinct keys and disjoint accept lists say about the last entry. */
  lemma LastIsFresh(pcs: seq<PeerConfig>)
    requires pcs != [] && DistinctConfigs(pcs) && DisjointAccepts(pcs)
    ensures DistinctConfigs(pcs[..|pcs| - 1]) && DisjointAccepts(pcs[..|pcs| - 1])
    ensures pcs[|pcs| - 1].key !in Named(pcs[..|pcs| - 1])
    ensures Canon(pcs[|pcs| - 1].allowed) !! Given(pcs[..|pcs| - 1])
  {
    var front, last := pcs[..|pcs| - 1], pcs[|pcs| - 1];
    NamedIff(front, last.key);
    GivenDisjoint(front, Canon(last.allowed));
  }

  lemma {:induction false} ApplyAppend(k: Kernel, a: seq<PeerConfig>, b: seq<PeerConfig>)
    ensures ApplyPeers(k, a + b) == ApplyPeers(ApplyPeers(k, a), b)
  {
    if b == [] {
      assert a + b == a;
    } else {
      ApplyAppend(k, a, b[..|b| - 1]);
      assert (a + b)[..|a + b| - 1] == a + b[..|b| - 1];
    }
  }

  /** Leaving out what the device already has changes nothing, wherever prefixes move. */
  lemma {:induction false} KeptEquivalent(k: Kernel, want: seq<PeerConfig>, live: seq<Peer>)
    requires Snapshot(k, live) && DistinctConfigs(want) && DisjointAccepts(want)
    ensures ApplyPeers(k, Kept(want, live)) == ApplyPeers(k, want)
  {
    if want != [] {
      var front, pc := want[..|want| - 1], want[|want| - 1];
      LastIsFresh(want);
      KeptEquivalent(k, front, live);
      var now := ApplyPeers(k, front);
      ApplyAppend(k, Kept(front, live), Planned(pc, live, Named(front)));
      assert ApplyPeers(now, Planned(pc, live, Named(front))) == ApplyPeer(now, pc) by {
        ApplyPeersInvariant(k, front);
        PlannedEquivalent(now, k, pc, live, front);
      }
    }
  }

  lemma PlannedEquivalent(now: Kernel, k: Kernel, pc: PeerConfig, live: seq<Peer>, done: seq<PeerConfig>)
    requires Snapshot(k, live) && Exclusive(now) && Untouched(now, k, done)
    requires pc.key !in Named(done) && Canon(pc.allowed) !! Given(done)
    ensures ApplyPeers(now, Planned(pc, live, Named(done))) == ApplyPeer(now, pc)
  {
    var before := Find(live, pc.key);
    if before.Some? {
      assert pc.key in k && pc.key in now;
      PeerDeltaEquivalent(now, pc, before.value, Given(done));
      assert ApplyPeers(now, [PeerDelta(pc, before.value)]) ==
        ApplyPeer(ApplyPeers(now, []), PeerDelta(pc, before.value));
    } else {
      assert ApplyPeers(now, [pc]) == ApplyPeer(ApplyPeers(now, []), pc);
    }
  }

  /** Every entry and every removal, without looking at the device first. */
  function Everything(want: Config, live: Device): seq<PeerConfig> {
    want.peers + Removals(Named(want.peers), live.peers)
  }

  /** The device's own key, port and mark after a request: as named, or as they were. */
  function Settings(c: Config, live: Device): (string, nat, nat) {
    (Or(c.privateKey, live.privateKey), Or(c.listenPort, live.listenPort), Or(c.mark, live.mark))
  }

  /** The delta and the complete request leave the same device. */
  lemma DeltaRefinesEverything(k: Kernel, want: Config, live: Device)
    requires Snapshot(k, live.peers) && DistinctConfigs(want.peers) && DisjointAccepts(want.peers)
    ensures Settings(Delta(want, live), live) == Settings(want, live)
    ensures ApplyPeers(k, Delta(want, live).peers) == ApplyPeers(k, Everything(want, live))
  {
    var gone := Removals(Named(want.peers), live.peers);
    ApplyAppend(k, Kept(want.peers, live.peers), gone);
    ApplyAppend(k, want.peers, gone);
    KeptEquivalent(k, want.peers, live.peers);
  }

  // ----- Overlapping accept lists -----

  /** Each entry names its peer's whole accept list, as the agent's own requests do. */
  ghost predicate Complete(pcs: seq<PeerConfig>) {
    forall i | 0 <= i < |pcs| :: pcs[i].replace && !pcs[i].remove
  }

  /** What is sent for an entry; for an entry that changes nothing, a request without effect. */
  function SentEntry(pc: PeerConfig, live: seq<Peer>): PeerConfig {
    if Find(live, pc.key).None? then pc else PeerDelta(pc, Find(live, pc.key).value)
  }

  function Sent(pcs: seq<PeerConfig>, live: seq<Peer>): seq<PeerConfig> {
    if pcs == [] then [] else Sent(pcs[..|pcs| - 1], live) + [SentEntry(pcs[|pcs| - 1], live)]
  }

  /** The last entry that lists a prefix, or -1. */
  function LastLister(pcs: seq<PeerConfig>, x: Prefix): (i: int)
    ensures -1 <= i < |pcs| && (i >= 0 ==> x in Canon(pcs[i].allowed))
    ensures forall j | i < j < |pcs| :: x !in Canon(pcs[j].allowed)
  {
    if pcs == [] then -1
    else if x in Canon(pcs[|pcs| - 1].allowed) then |pcs| - 1
    else LastLister(pcs[..|pcs| - 1], x)
  }

  lemma {:induction false} SentAt(pcs: seq<PeerConfig>, live: seq<Peer>)
    ensures |Sent(pcs, live)| == |pcs|
    ensures forall i | 0 <= i < |pcs| :: Sent(pcs, live)[i] == SentEntry(pcs[i], live)
  {
    if pcs != [] {
      SentAt(pcs[..|pcs| - 1], live);
    }
  }

  /** Entries that configure and never remove. */
  ghost predicate Adding(pcs: seq<PeerConfig>) {
    forall i | 0 <= i < |pcs| :: !pcs[i].remove
  }

  lemma {:induction false} AddingKeys(k: Kernel, pcs: seq<PeerConfig>)
    requires Adding(pcs)
    ensures ApplyPeers(k, pcs).Keys == k.Keys + Named(pcs)
  {
    if pcs != [] {
      AddingKeys(k, pcs[..|pcs| - 1]);
    }
  }

  lemma PlannedIsSent(now: Kernel, pc: PeerConfig, live: seq<Peer>, done: set<Key>)
    requires pc.key !in done && (Find(live, pc.key).Some? ==> pc.key in now)
    ensures ApplyPeers(now, Planned(pc, live, done)) == ApplyPeer(now, SentEntry(pc, live))
  {
    var e := SentEntry(pc, live);
    assert ApplyPeers(now, [e]) == ApplyPeer(ApplyPeers(now, []), e);
    if Find(live, pc.key).Some? && !Matters(e) {
      NothingHappens(now, e);
    }
  }

  lemma SentStays(k: Kernel, pcs: seq<PeerConfig>, live: seq<Peer>)
    requires Adding(pcs)
    ensures k.Keys <= ApplyPeers(k, Sent(pcs, live)).Keys
  {
    SentAt(pcs, live);
    AddingKeys(k, Sent(pcs, live));
  }

  lemma FrontIsFresh(pcs: seq<PeerConfig>)
    requires pcs != [] && DistinctConfigs(pcs) && Adding(pcs)
    ensures var front := pcs[..|pcs| - 1];
            DistinctConfigs(front) && Adding(front) && pcs[|pcs| - 1].key !in Named(front)
  {
    var front := pcs[..|pcs| - 1];
    assert forall i | 0 <= i < |front| :: front[i] == pcs[i];
    NamedIff(front, pcs[|pcs| - 1].key);
  }

  /** Leaving out a request without effect changes nothing. */
  lemma {:induction false} KeptIsSent(k: Kernel, pcs: seq<PeerConfig>, live: seq<Peer>)
    requires DistinctConfigs(pcs) && Adding(pcs) && forall key | Find(live, key).Some? :: key in k
    ensures ApplyPeers(k, Kept(pcs, live)) == ApplyPeers(k, Sent(pcs, live))
  {
    if pcs != [] {
      var front, pc := pcs[..|pcs| - 1], pcs[|pcs| - 1];
      FrontIsFresh(pcs);
      KeptIsSent(k, front, live);
      SentStays(k, front, live);
      ApplyAppend(k, Kept(front, live), Planned(pc, live, Named(front)));
      PlannedIsSent(ApplyPeers(k, Sent(front, live)), pc, live, Named(front));
      SentLast(pcs, live);
    }
  }

  lemma SentLast(pcs: seq<PeerConfig>, live: seq<Peer>)
    requires pcs != []
    ensures var all := Sent(pcs, live);
            && all != [] && all[..|all| - 1] == Sent(pcs[..|pcs| - 1], live)
            && all[|all| - 1] == SentEntry(pcs[|pcs| - 1], live)
  {
  }

  /** Some entry replaces the accept list of `q`. */
  ghost predicate Replaced(pcs: seq<PeerConfig>, q: Key) {
    exists i :: 0 <= i < |pcs| && pcs[i].key == q && pcs[i].replace
  }

  /**
   Who has a prefix afterwards: the last entry that sends it or, if none does, whoever had it and
   was not replaced.
   */
  ghost predicate Owns(k: Kernel, pcs: seq<PeerConfig>, q: Key, x: Prefix) {
    var i := LastLister(pcs, x);
    if i >= 0 then pcs[i].key == q else Has(k, q, x) && !Replaced(pcs, q)
  }

  ghost predicate Has(k: Kernel, q: Key, x: Prefix) {
    q in k && x in k[q].allowed
  }

  lemma HasNext(k: Kernel, pc: PeerConfig, q: Key, x: Prefix)
    requires !pc.remove
    ensures Has(ApplyPeer(k, pc), q, x) <==>
            if x in Canon(pc.allowed) then q == pc.key else Has(k, q, x) && !(q == pc.key && pc.replace)
  {
  }

  lemma OwnsNext(k: Kernel, front: seq<PeerConfig>, pc: PeerConfig, q: Key, x: Prefix)
    requires pc.key !in Named(front)
    ensures Owns(k, front + [pc], q, x) <==>
            if x in Canon(pc.allowed) then q == pc.key else Owns(k, front, q, x) && !(q == pc.key && pc.replace)
  {
    var pcs := front + [pc];
    assert pcs[..|front|] == front && pcs[|front|] == pc;
    NamedIff(front, pc.key);
    assert Replaced(pcs, q) <==> Replaced(front, q) || (pc.key == q && pc.replace) by {
      if i :| 0 <= i < |front| && front[i].key == q && front[i].replace {
        assert pcs[i] == front[i];
      }
      if pc.key == q && pc.replace {
        assert pcs[|front|].key == q;
      }
    }
  }

  lemma {:induction false} OwnerAfter(k: Kernel, pcs: seq<PeerConfig>, q: Key, x: Prefix)
    requires DistinctConfigs(pcs) && Adding(pcs)
    ensures Has(ApplyPeers(k, pcs), q, x) <==> Owns(k, pcs, q, x)
  {
    if pcs != [] {
      var front, pc := pcs[..|pcs| - 1], pcs[|pcs| - 1];
      FrontIsFresh(pcs);
      OwnerAfter(k, front, q, x);
      HasNext(ApplyPeers(k, front), pc, q, x);
      OwnsNext(k, front, pc, q, x);
      assert front + [pc] == pcs;
    }
  }

  /** What the last entry listing `x` does not send is its own already. */
  lemma UnsentIsHeld(k: Kernel, pcs: seq<PeerConfig>, live: seq<Peer>, i: nat, x: Prefix)
    requires Snapshot(k, live) && i < |pcs| && pcs[i].replace
    requires x in Canon(pcs[i].allowed) && x !in Canon(SentEntry(pcs[i], live).allowed)
    ensures Has(k, pcs[i].key, x) && !SentEntry(pcs[i], live).replace
  {
    if Find(live, pcs[i].key).Some? {
      AddedCanon(Canon(Find(live, pcs[i].key).value.allowed), pcs[i].allowed);
    }
  }

  lemma SentIsListed(pc: PeerConfig, live: seq<Peer>)
    ensures Canon(SentEntry(pc, live).allowed) <= Canon(pc.allowed)
  {
    if Find(live, pc.key).Some? {
      AddedCanon(Canon(Find(live, pc.key).value.allowed), pc.allowed);
    }
  }

  /** The last entry that lists the prefix sends it, or no entry does. */
  ghost predicate Decided(pcs: seq<PeerConfig>, live: seq<Peer>, x: Prefix) {
    var i := LastLister(pcs, x);
    i >= 0 ==> x in Canon(SentEntry(pcs[i], live).allowed) || LastLister(Sent(pcs, live), x) < 0
  }

  lemma LastSender(pcs: seq<PeerConfig>, live: seq<Peer>, x: Prefix)
    ensures LastLister(Sent(pcs, live), x) <= LastLister(pcs, x)
    ensures var i := LastLister(pcs, x);
            i >= 0 ==> (LastLister(Sent(pcs, live), x) == i <==> x in Canon(SentEntry(pcs[i], live).allowed))
  {
    SentAt(pcs, live);
    var j := LastLister(Sent(pcs, live), x);
    if j >= 0 {
      SentIsListed(pcs[j], live);
    }
  }

  /** A prefix the peer has and its entry does not list makes that entry a replacement. */
  lemma UnlistedIsReplaced(k: Kernel, pcs: seq<PeerConfig>, live: seq<Peer>, q: Key, x: Prefix)
    requires Snapshot(k, live) && Complete(pcs) && LastLister(pcs, x) < 0 && Has(k, q, x)
    ensures Replaced(pcs, q) <==> Replaced(Sent(pcs, live), q)
  {
    var sent := Sent(pcs, live);
    SentAt(pcs, live);
    if i :| 0 <= i < |pcs| && pcs[i].key == q && pcs[i].replace {
      assert x in Canon(Find(live, q).value.allowed) && x !in Canon(pcs[i].allowed);
      assert sent[i].key == q && sent[i].replace;
    }
    if i :| 0 <= i < |sent| && sent[i].key == q && sent[i].replace {
      assert pcs[i].key == q && pcs[i].replace;
    }
  }

  lemma UnlistedOwner(k: Kernel, pcs: seq<PeerConfig>, live: seq<Peer>, q: Key, x: Prefix)
    requires Snapshot(k, live) && DistinctConfigs(pcs) && Complete(pcs) && LastLister(pcs, x) < 0
    ensures Owns(k, pcs, q, x) <==> Owns(k, Sent(pcs, live), q, x)
  {
    LastSender(pcs, live, x);
    if Has(k, q, x) {
      UnlistedIsReplaced(k, pcs, live, q, x);
    }
  }

  lemma SentOwner(pcs: seq<PeerConfig>, live: seq<Peer>, i: nat)
    requires DistinctConfigs(pcs) && i < |pcs| && !SentEntry(pcs[i], live).replace
    ensures !Replaced(Sent(pcs, live), pcs[i].key)
  {
    SentAt(pcs, live);
    OnlyOwnEntry(Sent(pcs, live), i);
  }

  lemma ListedOwner(k: Kernel, pcs: seq<PeerConfig>, live: seq<Peer>, q: Key, x: Prefix)
    requires Snapshot(k, live) && DistinctConfigs(pcs) && Complete(pcs) && LastLister(pcs, x) >= 0
    requires Decided(pcs, live, x)
    ensures Owns(k, pcs, q, x) <==> Owns(k, Sent(pcs, live), q, x)
  {
    var i := LastLister(pcs, x);
    LastSender(pcs, live, x);
    if LastLister(Sent(pcs, live), x) < 0 {
      UnsentIsHeld(k, pcs, live, i, x);
      OneHolder(k, pcs[i].key, q, x);
      SentOwner(pcs, live, i);
    } else {
      assert Sent(pcs, live)[i].key == pcs[i].key by { SentAt(pcs, live); }
    }
  }

  lemma OneHolder(k: Kernel, mine: Key, q: Key, x: Prefix)
    requires Exclusive(k) && Has(k, mine, x)
    ensures Has(k, q, x) <==> q == mine
  {
  }

  lemma OnlyOwnEntry(pcs: seq<PeerConfig>, i: nat)
    requires i < |pcs| && !pcs[i].replace && forall j | 0 <= j < |pcs| && j != i :: pcs[j].key != pcs[i].key
    ensures !Replaced(pcs, pcs[i].key)
  {
  }

  lemma DecidedOwner(k: Kernel, pcs: seq<PeerConfig>, live: seq<Peer>, q: Key, x: Prefix)
    requires Snapshot(k, live) && DistinctConfigs(pcs) && Complete(pcs) && Decided(pcs, live, x)
    ensures Owns(k, pcs, q, x) <==> Owns(k, Sent(pcs, live), q, x)
  {
    if LastLister(pcs, x) < 0 {
      UnlistedOwner(k, pcs, live, q, x);
    } else {
      ListedOwner(k, pcs, live, q, x);
    }
  }

  /** Everything about a peer but its accept list. */
  function Fields(p: KernelPeer): KernelPeer {
    p.(allowed := {})
  }

  lemma FieldsStep(k: Kernel, pc: PeerConfig, q: Key)
    requires !pc.remove && q in k.Keys + {pc.key}
    ensures q in ApplyPeer(k, pc)
    ensures Fields(ApplyPeer(k, pc)[q]) ==
            if q == pc.key then Fields(Configured(Existing(k, q), pc)) else Fields(k[q])
  {
  }

  lemma SameFields(a: KernelPeer, b: KernelPeer, pc: PeerConfig, live: seq<Peer>)
    requires Fields(a) == Fields(b)
    requires Find(live, pc.key).Some? ==> Fields(a) == Fields(Loaded(Find(live, pc.key).value))
    ensures Fields(Configured(a, pc)) == Fields(Configured(b, SentEntry(pc, live)))
  {
  }

  /** Full and sent entries have done the same to a peer's other fields. */
  ghost predicate SameSoFar(k: Kernel, full: Kernel, sent: Kernel, named: set<Key>, q: Key) {
    && (q in full <==> q in k.Keys + named) && (q in sent <==> q in full)
    && (q in full ==> Fields(full[q]) == Fields(sent[q]))
    && (q in full && q !in named ==> Fields(full[q]) == Fields(k[q]))
  }

  lemma SameNext(k: Kernel, full: Kernel, sent: Kernel, named: set<Key>, live: seq<Peer>, pc: PeerConfig, q: Key)
    requires Snapshot(k, live) && !pc.remove && pc.key !in named
    requires SameSoFar(k, full, sent, named, q) && SameSoFar(k, full, sent, named, pc.key)
    ensures SameSoFar(k, ApplyPeer(full, pc), ApplyPeer(sent, SentEntry(pc, live)), named + {pc.key}, q)
  {
    if q in full.Keys + {pc.key} {
      FieldsStep(full, pc, q);
      FieldsStep(sent, SentEntry(pc, live), q);
      if q == pc.key {
        SameFields(Existing(full, q), Existing(sent, q), pc, live);
      }
    }
  }

  /** The other fields of a peer are what its own entry makes of them. */
  lemma {:induction false} FieldsAfter(k: Kernel, pcs: seq<PeerConfig>, live: seq<Peer>, q: Key)
    requires Snapshot(k, live) && DistinctConfigs(pcs) && Adding(pcs)
    ensures SameSoFar(k, ApplyPeers(k, pcs), ApplyPeers(k, Sent(pcs, live)), Named(pcs), q)
  {
    if pcs != [] {
      var front, pc := pcs[..|pcs| - 1], pcs[|pcs| - 1];
      FrontIsFresh(pcs);
      FieldsAfter(k, front, live, q);
      FieldsAfter(k, front, live, pc.key);
      SameNext(k, ApplyPeers(k, front), ApplyPeers(k, Sent(front, live)), Named(front), live, pc, q);
      SentLast(pcs, live);
    }
  }

  lemma {:induction false} SameNames(pcs: seq<PeerConfig>, live: seq<Peer>)
    ensures Named(Sent(pcs, live)) == Named(pcs)
  {
    if pcs != [] {
      SameNames(pcs[..|pcs| - 1], live);
      var all := Sent(pcs, live);
      assert all[..|all| - 1] == Sent(pcs[..|pcs| - 1], live);
    }
  }

  lemma SameDevice(a: Kernel, b: Kernel)
    requires a.Keys == b.Keys && forall q | q in a :: Fields(a[q]) == Fields(b[q])
    requires forall q, x | q in a :: x in a[q].allowed <==> x in b[q].allowed
    ensures a == b
  {
    forall q | q in a
      ensures a[q] == b[q]
    {
      assert a[q].allowed == b[q].allowed;
    }
  }

  lemma SentAdds(pcs: seq<PeerConfig>, live: seq<Peer>)
    requires Complete(pcs) && DistinctConfigs(pcs)
    ensures Adding(pcs) && Adding(Sent(pcs, live)) && DistinctConfigs(Sent(pcs, live))
  {
    SentAt(pcs, live);
  }

  /** When every prefix is decided, the delta and the complete list leave the same device. */
  lemma DecidedIsEnough(k: Kernel, pcs: seq<PeerConfig>, live: seq<Peer>)
    requires Snapshot(k, live) && DistinctConfigs(pcs) && Complete(pcs) && forall x :: Decided(pcs, live, x)
    ensures ApplyPeers(k, Kept(pcs, live)) == ApplyPeers(k, pcs)
  {
    SentAdds(pcs, live);
    KeptIsSent(k, pcs, live);
    AddingKeys(k, pcs);
    AddingKeys(k, Sent(pcs, live));
    SameNames(pcs, live);
    var full, sent := ApplyPeers(k, pcs), ApplyPeers(k, Sent(pcs, live));
    forall q | q in full
      ensures Fields(full[q]) == Fields(sent[q])
    {
      FieldsAfter(k, pcs, live, q);
    }
    forall q, x | q in full
      ensures x in full[q].allowed <==> x in sent[q].allowed
    {
      OwnerAfter(k, pcs, q, x);
      OwnerAfter(k, Sent(pcs, live), q, x);
      DecidedOwner(k, pcs, live, q, x);
    }
    SameDevice(full, sent);
  }

  /** An undecided prefix ends with different owners, both of whom the configuration names. */
  lemma UndecidedDiffers(k: Kernel, pcs: seq<PeerConfig>, live: seq<Peer>, x: Prefix) returns (q: Key)
    requires Snapshot(k, live) && DistinctConfigs(pcs) && Complete(pcs) && !Decided(pcs, live, x)
    ensures q in Named(pcs) && Has(ApplyPeers(k, pcs), q, x) && !Has(ApplyPeers(k, Kept(pcs, live)), q, x)
  {
    var i, j := LastLister(pcs, x), LastLister(Sent(pcs, live), x);
    q := pcs[i].key;
    SentAdds(pcs, live);
    SentAt(pcs, live);
    KeptIsSent(k, pcs, live);
    NamedIff(pcs, q);
    LastSender(pcs, live, x);
    OwnerAfter(k, pcs, q, x);
    OwnerAfter(k, Sent(pcs, live), q, x);
    assert j < i && pcs[j].key != q;
  }

  /**
   For accept lists that may overlap: the delta and the complete request leave the same device
   exactly when for every prefix the last entry that lists it sends it, or no entry does.
   */
  lemma DeltaRefinesIff(k: Kernel, want: Config, live: Device)
    requires Snapshot(k, live.peers) && DistinctConfigs(want.peers) && Complete(want.peers)
    ensures ApplyPeers(k, Delta(want, live).peers) == ApplyPeers(k, Everything(want, live)) <==>
            forall x :: Decided(want.peers, live.peers, x)
  {
    var pcs, keys := want.peers, Named(want.peers);
    var gone := Removals(keys, live.peers);
    ApplyAppend(k, Kept(pcs, live.peers), gone);
    ApplyAppend(k, pcs, gone);
    if forall x :: Decided(pcs, live.peers, x) {
      DecidedIsEnough(k, pcs, live.peers);
    } else {
      var x :| !Decided(pcs, live.peers, x);
      var q := UndecidedDiffers(k, pcs, live.peers, x);
      RemovalsApply(ApplyPeers(k, pcs), keys, live.peers);
      RemovalsApply(ApplyPeers(k, Kept(pcs, live.peers)), keys, live.peers);
      UnnamedIff(keys, live.peers, q);
      StillDiffer(ApplyPeers(k, pcs), ApplyPeers(k, Kept(pcs, live.peers)), Unnamed(keys, live.peers), q, x);
    }
  }

  lemma StillDiffer(a: Kernel, b: Kernel, gone: set<Key>, q: Key, x: Prefix)
    requires q !in gone && Has(a, q, x) && !Has(b, q, x)
    ensures a - gone != b - gone
  {
    assert q in a - gone && (a - gone)[q] == a[q];
    assert q in b - gone <==> q in b;
    assert q in b ==> (b - gone)[q] == b[q];
  }

  // ----- One prefix listed twice -----

  /** An entry that lists one prefix. */
  function Listing(key: Key, x: IPNet): PeerConfig {
    PeerConfig(key, false, None, None, None, true, [x])
  }

  function Holding(key: Key, nets: seq<IPNet>): Peer {
    Peer(key, None, None, 0, nets)
  }

  function Held(prefixes: set<Prefix>): KernelPeer {
    KernelPeer(None, None, 0, prefixes)
  }

  /** Two peers, of which the first or the second has the prefix. */
  function TwoPeers(a: Key, b: Key, x: IPNet, first: bool): seq<Peer> {
    [Holding(a, if first then [x] else []), Holding(b, if first then [] else [x])]
  }

  function TwoHeld(a: Key, b: Key, x: IPNet, first: bool): Kernel {
    var all := {CanonicalPrefix(x)};
    map[a := Held(if first then all else {}), b := Held(if first then {} else all)]
  }

  lemma FindTwo(a: Key, b: Key, x: IPNet, first: bool, key: Key)
    requires a != b
    ensures var live := TwoPeers(a, b, x, first);
            Find(live, key) == if key == b then Some(live[1]) else if key == a then Some(live[0]) else None
  {
    var live := TwoPeers(a, b, x, first);
    assert live[..1] == [live[0]] && [live[0]][..0] == [];
    assert Find([live[0]], key) == if live[0].key == key then Some(live[0]) else Find([], key);
  }

  lemma TwoSnapshot(a: Key, b: Key, x: IPNet, first: bool)
    requires a != b
    ensures Snapshot(TwoHeld(a, b, x, first), TwoPeers(a, b, x, first))
  {
    SingleCanon(x);
    forall key
      ensures var live, k := TwoPeers(a, b, x, first), TwoHeld(a, b, x, first);
              (key in k <==> Find(live, key).Some?) && (key in k ==> k[key] == Loaded(Find(live, key).value))
    {
      FindTwo(a, b, x, first, key);
    }
  }

  /** Giving the prefix to either peer, with or without replacing its list. */
  lemma GiveTo(a: Key, b: Key, x: IPNet, first: bool, second: bool, replace: bool)
    requires a != b
    ensures ApplyPeer(TwoHeld(a, b, x, first), Listing(if second then b else a, x).(replace := replace)) ==
            TwoHeld(a, b, x, !second)
  {
    SingleCanon(x);
    var k := TwoHeld(a, b, x, first);
    var t := ApplyPeer(k, Listing(if second then b else a, x).(replace := replace));
    assert t.Keys == {a, b};
    assert t[a] == TwoHeld(a, b, x, !second)[a] && t[b] == TwoHeld(a, b, x, !second)[b];
  }

  /** Whoever has the prefix sends nothing, and whoever lacks it asks for it. */
  lemma SentByTwo(a: Key, b: Key, x: IPNet, first: bool)
    requires a != b
    ensures SentEntry(Listing(a, x), TwoPeers(a, b, x, first)) ==
            Listing(a, x).(replace := false, allowed := if first then [] else [x])
    ensures SentEntry(Listing(b, x), TwoPeers(a, b, x, first)) ==
            Listing(b, x).(replace := false, allowed := if first then [x] else [])
  {
    FindTwo(a, b, x, first, a);
    FindTwo(a, b, x, first, b);
    DeltaOfOne(a, x, first);
    DeltaOfOne(b, x, !first);
  }

  lemma AddedOne(x: IPNet)
    ensures Added({}, [x]) == [x] && Added({CanonicalPrefix(x)}, [x]) == []
  {
    assert [x][..0] == [] && Added({}, []) == [] && Added({CanonicalPrefix(x)}, []) == [];
  }

  lemma DeltaOfOne(key: Key, x: IPNet, has: bool)
    ensures PeerDelta(Listing(key, x), Holding(key, if has then [x] else [])) ==
            Listing(key, x).(replace := false, allowed := if has then [] else [x])
  {
    SingleCanon(x);
    AddedOne(x);
  }

  lemma KeptByTwo(a: Key, b: Key, x: IPNet, first: bool)
    requires a != b
    ensures Kept([Listing(a, x), Listing(b, x)], TwoPeers(a, b, x, first)) ==
            [Listing(if first then b else a, x).(replace := false)]
  {
    var pcs, live := [Listing(a, x), Listing(b, x)], TwoPeers(a, b, x, first);
    SentByTwo(a, b, x, first);
    FindTwo(a, b, x, first, a);
    FindTwo(a, b, x, first, b);
    assert pcs[..1] == [pcs[0]] && [pcs[0]][..0] == [];
    assert Named([pcs[0]]) == {a} by { assert Named([]) == {}; }
    assert Kept([pcs[0]], live) == Kept([], live) + Planned(pcs[0], live, Named([]));
    assert Kept(pcs, live) == Kept([pcs[0]], live) + Planned(pcs[1], live, {a});
  }

  lemma DeltaMovesShared(a: Key, b: Key, x: IPNet, first: bool)
    requires a != b
    ensures ApplyPeers(TwoHeld(a, b, x, first), Kept([Listing(a, x), Listing(b, x)], TwoPeers(a, b, x, first))) ==
            TwoHeld(a, b, x, !first)
  {
    KeptByTwo(a, b, x, first);
    GiveTo(a, b, x, first, first, false);
    ApplySingle(TwoHeld(a, b, x, first), Listing(if first then b else a, x).(replace := false));
  }

  lemma EverythingSettlesShared(a: Key, b: Key, x: IPNet, first: bool)
    requires a != b
    ensures ApplyPeers(TwoHeld(a, b, x, first), [Listing(a, x), Listing(b, x)]) == TwoHeld(a, b, x, false)
  {
    var k, p, q := TwoHeld(a, b, x, first), Listing(a, x), Listing(b, x);
    assert p == p.(replace := true) && q == q.(replace := true);
    GiveTo(a, b, x, first, false, true);
    GiveTo(a, b, x, true, true, true);
    assert [p, q][..1] == [p];
    ApplySingle(k, p);
    assert ApplyPeers(k, [p, q]) == ApplyPeer(ApplyPeers(k, [p]), q);
  }

  /**
   When two entries list one prefix it changes hands on every pass, whereas the complete request
   leaves it with the second peer.
   */
  lemma SharedPrefixMovesEveryPass(a: Key, b: Key, x: IPNet, first: bool)
    requires a != b
    ensures var pcs, k, live := [Listing(a, x), Listing(b, x)], TwoHeld(a, b, x, first), TwoPeers(a, b, x, first);
            && Snapshot(k, live)
            && ApplyPeers(k, Kept(pcs, live)) == TwoHeld(a, b, x, !first)
            && ApplyPeers(k, pcs) == TwoHeld(a, b, x, false)
  {
    TwoSnapshot(a, b, x, first);
    DeltaMovesShared(a, b, x, first);
    EverythingSettlesShared(a, b, x, first);
  }

  lemma ApplySingle(k: Kernel, pc: PeerConfig)
    ensures ApplyPeers(k, [pc]) == ApplyPeer(k, pc)
  {
    assert [pc][..0] == [] && ApplyPeers(k, []) == k;
  }

  lemma SingleCanon(x: IPNet)
    ensures Canon([x]) == {CanonicalPrefix(x)} && Canon([]) == {}
  {
    assert [x][..0] == [];
  }

  // ----- What the device holds afterwards -----

  /** Every entry has its peer: named fields and accept list as given, the rest as `start` had it. */
  ghost predicate Installed(k: Kernel, start: Kernel, pcs: seq<PeerConfig>) {
    forall i | 0 <= i < |pcs| :: pcs[i].key in k && k[pcs[i].key] == Configured(Existing(start, pcs[i].key), pcs[i])
  }

  /** A later entry with other prefixes leaves an installed peer alone. */
  lemma LaterEntryLeaves(k: Kernel, done: PeerConfig, pc: PeerConfig)
    requires done.key in k && done.key != pc.key
    requires k[done.key].allowed == Canon(done.allowed) && Canon(done.allowed) !! Canon(pc.allowed)
    ensures done.key in ApplyPeer(k, pc) && ApplyPeer(k, pc)[done.key] == k[done.key]
  {
    assert Canon(done.allowed) - Canon(pc.allowed) == Canon(done.allowed);
  }

  lemma {:induction false} EveryEntryInstalled(start: Kernel, pcs: seq<PeerConfig>)
    requires Exclusive(start) && DistinctConfigs(pcs) && DisjointAccepts(pcs) && Complete(pcs)
    ensures Installed(ApplyPeers(start, pcs), start, pcs)
  {
    if pcs != [] {
      var front, pc := pcs[..|pcs| - 1], pcs[|pcs| - 1];
      LastIsFresh(pcs);
      EveryEntryInstalled(start, front);
      var k := ApplyPeers(start, front);
      assert Configured(Existing(k, pc.key), pc) == Configured(Existing(start, pc.key), pc) by {
        ApplyPeersInvariant(start, front);
      }
      var t := ApplyPeer(k, pc);
      forall i | 0 <= i < |pcs|
        ensures pcs[i].key in t && t[pcs[i].key] == Configured(Existing(start, pcs[i].key), pcs[i])
      {
        if i < |front| {
          assert front[i] == pcs[i];
          LaterEntryLeaves(k, pcs[i], pc);
        }
      }
    }
  }

  lemma {:induction false} KeysAfter(k: Kernel, pcs: seq<PeerConfig>)
    requires Complete(pcs)
    ensures ApplyPeers(k, pcs).Keys == k.Keys + Named(pcs)
  {
    if pcs != [] {
      KeysAfter(k, pcs[..|pcs| - 1]);
    }
  }

  function Unnamed(keys: set<Key>, peers: seq<Peer>): set<Key> {
    if peers == [] then {}
    else Unnamed(keys, peers[..|peers| - 1]) + {peers[|peers| - 1].key} - keys
  }

  lemma {:induction false} UnnamedIff(keys: set<Key>, peers: seq<Peer>, key: Key)
    ensures key in Unnamed(keys, peers) <==> key !in keys && Find(peers, key).Some?
  {
    if peers != [] {
      UnnamedIff(keys, peers[..|peers| - 1], key);
    }
  }

  lemma {:induction false} RemovalsApply(k: Kernel, keys: set<Key>, peers: seq<Peer>)
    ensures ApplyPeers(k, Removals(keys, peers)) == k - Unnamed(keys, peers)
  {
    if peers == [] {
      assert k - {} == k;
    } else {
      var front, last := peers[..|peers| - 1], peers[|peers| - 1];
      RemovalsApply(k, keys, front);
      assert Unnamed(keys, front) !! keys by {
        forall key | key in Unnamed(keys, front) ensures key !in keys { UnnamedIff(keys, front, key); }
      }
      if last.key in keys {
        assert Removals(keys, peers) == Removals(keys, front);
        assert Unnamed(keys, peers) == Unnamed(keys, front);
      } else {
        var all := Removals(keys, peers);
        assert all[..|all| - 1] == Removals(keys, front);
        assert Unnamed(keys, peers) == Unnamed(keys, front) + {last.key};
        assert k - Unnamed(keys, front) - {last.key} == k - (Unnamed(keys, front) + {last.key});
      }
    }
  }

  lemma RemovalsLeaveNamed(k: Kernel, full: Kernel, keys: set<Key>, peers: seq<Peer>)
    requires Snapshot(k, peers) && full.Keys == k.Keys + keys
    ensures full.Keys - Unnamed(keys, peers) == keys
  {
    forall key
      ensures key in full.Keys - Unnamed(keys, peers) <==> key in keys
    {
      UnnamedIff(keys, peers, key);
    }
  }

  lemma NamedKeys(pcs: seq<PeerConfig>)
    ensures forall i | 0 <= i < |pcs| :: pcs[i].key in Named(pcs)
  {
    forall i | 0 <= i < |pcs|
      ensures pcs[i].key in Named(pcs)
    {
      NamedIff(pcs, pcs[i].key);
    }
  }

  /**
   The device after the delta: its own settings as named, the configuration's peers and no
   others, each with exactly its accept list, its named fields as given and its unnamed fields
   as they were.
   */
  lemma DeltaInstallsConfiguration(k: Kernel, want: Config, live: Device)
    requires Snapshot(k, live.peers) && DistinctConfigs(want.peers) && DisjointAccepts(want.peers)
    requires Complete(want.peers)
    ensures var (privateKey, listenPort, mark) := Settings(Delta(want, live), live);
            && privateKey == (match want.privateKey case Some(key) => key case None => live.privateKey)
            && listenPort == (match want.listenPort case Some(port) => port case None => live.listenPort)
            && mark == (match want.mark case Some(m) => m case None => live.mark)
    ensures var t := ApplyPeers(k, Delta(want, live).peers);
            && t.Keys == Named(want.peers)
            && Installed(t, k, want.peers)
            && Exclusive(t)
  {
    var pcs, keys := want.peers, Named(want.peers);
    var full, t := ApplyPeers(k, pcs), ApplyPeers(k, Delta(want, live).peers);
    assert t == full - Unnamed(keys, live.peers) by {
      DeltaRefinesEverything(k, want, live);
      ApplyAppend(k, pcs, Removals(keys, live.peers));
      RemovalsApply(full, keys, live.peers);
    }
    assert t.Keys == keys by {
      KeysAfter(k, pcs);
      RemovalsLeaveNamed(k, full, keys, live.peers);
    }
    assert Exclusive(full) by { ApplyPeersInvariant(k, pcs); }
    assert Installed(t, k, pcs) by {
      EveryEntryInstalled(k, pcs);
      NamedKeys(pcs);
    }
  }

  // ----- When nothing is sent -----

  /** The complete request would leave the device as it is. */
  ghost predicate Agrees(k: Kernel, want: Config, live: Device) {
    && Settings(want, live) == (live.privateKey, live.listenPort, live.mark)
    && ApplyPeers(k, Everything(want, live)) == k
  }

  ghost predicate NoPresharedKeys(pcs: seq<PeerConfig>) {
    forall i | 0 <= i < |pcs| :: pcs[i].psk.None?
  }

  lemma PlannedNothing(pc: PeerConfig, live: seq<Peer>, done: set<Key>)
    requires Planned(pc, live, done) == []
    ensures pc.psk.None?
  {
  }

  lemma {:induction false} NothingKept(pcs: seq<PeerConfig>, live: seq<Peer>)
    requires Kept(pcs, live) == []
    ensures NoPresharedKeys(pcs)
  {
    if pcs != [] {
      var front, pc := pcs[..|pcs| - 1], pcs[|pcs| - 1];
      assert |Kept(pcs, live)| == |Kept(front, live)| + |Planned(pc, live, Named(front))|;
      NothingKept(front, live);
      PlannedNothing(pc, live, Named(front));
      assert forall i | 0 <= i < |front| :: pcs[i] == front[i];
    }
  }

  lemma AgreeingPeerIsDropped(pc: PeerConfig, before: Peer)
    requires pc.replace && !pc.remove && pc.psk.None?
    requires Configured(Loaded(before), pc) == Loaded(before)
    ensures !Matters(PeerDelta(pc, before))
  {
    AddedCanon(Canon(before.allowed), pc.allowed);
    var added := Added(Canon(before.allowed), pc.allowed);
    assert Canon(before.allowed) == {} + Canon(pc.allowed) == Canon(pc.allowed);
    assert Canon(added) == {};
  }

  lemma {:induction false} AgreeingPeersAreDropped(k: Kernel, pcs: seq<PeerConfig>, live: seq<Peer>)
    requires Snapshot(k, live) && DistinctConfigs(pcs) && Complete(pcs) && NoPresharedKeys(pcs) && Installed(k, k, pcs)
    ensures Kept(pcs, live) == []
  {
    if pcs != [] {
      var front, pc := pcs[..|pcs| - 1], pcs[|pcs| - 1];
      AgreeingPeersAreDropped(k, front, live);
      NamedIff(front, pc.key);
      AgreeingPeerIsDropped(pc, Find(live, pc.key).value);
    }
  }

  lemma {:induction false} NoRemovals(keys: set<Key>, peers: seq<Peer>)
    requires forall key :: Find(peers, key).Some? ==> key in keys
    ensures Removals(keys, peers) == []
  {
    if peers != [] {
      var front := peers[..|peers| - 1];
      assert forall key :: Find(front, key).Some? ==> Find(peers, key).Some?;
      FindHit(peers, |peers| - 1);
      NoRemovals(keys, front);
    }
  }

  /**
   The planner stays silent exactly when the device agrees, except that a named preshared key
   is always sent: the live device's preshared key is never compared.
   */
  lemma SilentIffAgrees(k: Kernel, want: Config, live: Device)
    requires Snapshot(k, live.peers) && DistinctConfigs(want.peers) && DisjointAccepts(want.peers)
    requires Complete(want.peers)
    ensures !Changes(Delta(want, live)) <==> Agrees(k, want, live) && NoPresharedKeys(want.peers)
  {
    DeltaRefinesEverything(k, want, live);
    if !Changes(Delta(want, live)) {
      assert Kept(want.peers, live.peers) == [];
      NothingKept(want.peers, live.peers);
    }
    if Agrees(k, want, live) && NoPresharedKeys(want.peers) {
      DeltaInstallsConfiguration(k, want, live);
      AgreeingPeersAreDropped(k, want.peers, live.peers);
      NoRemovals(Named(want.peers), live.peers);
    }
  }
}
