/**
 The admission checks that order relays before their dependents, at the level of the
 committed receipts: devices, round digests and observation times.

 A switch is believed only when every device the relay contributes to the round has its
 own current receipt. The checks count receipts rather than match them to devices; the
 lemmas here show that counting is enough, and that passing the checks is what the
 relay-ordered protocol calls admissible.
 */
module RelayGuard {
  import opened Handover
  import opened Options

  type Key = string
  type Machine = string

  /** The four transport keys a round binds to a member device. */
  datatype Keys = Keys(from: string, to: string, fromPeer: string, toPeer: string)

  datatype Member = Member(node: Node, device: string, keys: Keys)

  datatype Receipt = Receipt(digest: string, node: Node, device: string, keys: Keys, observedAt: int)

  datatype Committed = Committed(round: Round, members: seq<Member>, digest: string, issuedAt: int, expiresAt: int,
                                 maxAge: int)

  datatype RoundView = RoundView(committed: Committed, observed: seq<Receipt>, complete: bool, rollbackRequested: bool,
                                 serving: Generation)

  /** `transit` is set when the path leaves through the relay that owns key `peer`. */
  datatype SitePath = SitePath(peer: Key, transit: bool)

  datatype Site = Site(node: Node, name: string, forward: Option<SitePath>, legacy: Option<SitePath>)

  datatype Previous = Previous(generation: Generation, sites: map<Key, Site>)

  /** `cloudNode` and `cloudName` identify the worker's own node, which receives the traffic. */
  datatype Plan = Plan(cloudNode: Node, cloudName: string, rootGeneration: Generation, receiverGeneration: Generation,
                       sites: map<Key, Site>, previous: Option<Previous>)

  datatype Intent = Intent(plans: map<Machine, Plan>, legacy: set<Machine>, views: map<Machine, RoundView>)

  /** The phase-graph part of a view, shared with the protocol model. */
  function Outline(v: RoundView, observed: set<Node>): View {
    View(v.committed.round, observed, v.rollbackRequested, v.complete, v.serving)
  }

  predicate Unfinished(v: RoundView) {
    !v.complete && v.committed.round.phase == Switch
  }

  function PathOf(site: Site, legacy: bool): Option<SitePath> {
    if legacy then site.legacy else site.forward
  }

  // ----- Receipt validation -----

  /** Round canonicalization refuses two members with the same node and device. */
  predicate Canonical(c: Committed) {
    forall i, j | 0 <= i < j < |c.members| ::
      c.members[i].node != c.members[j].node || c.members[i].device != c.members[j].device
  }

  predicate Binds(c: Committed, now: int, r: Receipt) {
    && r.digest == c.digest
    && c.issuedAt <= r.observedAt <= now && now - r.observedAt <= c.maxAge
    && Member(r.node, r.device, r.keys) in c.members
  }

  predicate DistinctDevices(proofs: seq<Receipt>) {
    forall i, j | 0 <= i < j < |proofs| :: proofs[i].node != proofs[j].node || proofs[i].device != proofs[j].device
  }

  predicate ReceiptsValid(c: Committed, now: int, proofs: seq<Receipt>) {
    && c.issuedAt <= now < c.expiresAt
    && 0 < |proofs| <= |c.members|
    && DistinctDevices(proofs)
    && forall i | 0 <= i < |proofs| :: Binds(c, now, proofs[i])
  }

  /** Members are looked up by node and device and their keys compared, receipt by receipt. */
  method ValidateReceipts(c: Committed, now: int, proofs: seq<Receipt>) returns (ok: bool)
    requires Canonical(c)
    ensures ok <==> ReceiptsValid(c, now, proofs)
  {
    if now < c.issuedAt || c.expiresAt <= now || |proofs| == 0 || |c.members| < |proofs| {
      return false;
    }
    var members: map<(Node, string), Member> := map[];
    for k := 0 to |c.members|
      invariant forall i | 0 <= i < k ::
                  (c.members[i].node, c.members[i].device) in members &&
                  members[(c.members[i].node, c.members[i].device)] == c.members[i]
      invariant forall id | id in members :: members[id] in c.members && (members[id].node, members[id].device) == id
    {
      members := members[(c.members[k].node, c.members[k].device) := c.members[k]];
    }
    var seen: set<(Node, string)> := {};
    for k := 0 to |proofs|
      invariant DistinctDevices(proofs[..k])
      invariant forall i | 0 <= i < k :: Binds(c, now, proofs[i])
      invariant forall id :: id in seen <==> exists i | 0 <= i < k :: id == (proofs[i].node, proofs[i].device)
    {
      var r := proofs[k];
      var id := (r.node, r.device);
      if id !in members {
        assert Member(r.node, r.device, r.keys) !in c.members;
        return false;
      }
      if id in seen {
        return false;
      }
      seen := seen + {id};
      if r.digest != c.digest || r.keys != members[id].keys {
        assert r.keys != members[id].keys ==> Member(r.node, r.device, r.keys) !in c.members;
        return false;
      }
      if r.observedAt < c.issuedAt || now < r.observedAt || c.maxAge < now - r.observedAt {
        return false;
      }
      assert members[id] == Member(r.node, r.device, r.keys);
    }
    assert proofs[..|proofs|] == proofs;
    ok := true;
  }

  // ----- One relay's switch -----

  function Matching(observed: seq<Receipt>, m: Member): seq<Receipt> {
    if observed == [] then []
    else Matching(observed[..|observed| - 1], m) +
         (var r := observed[|observed| - 1]; if r.node == m.node && r.device == m.device then [r] else [])
  }

  /** The receipts gathered for `node`, member by member. */
  function Gathered(members: seq<Member>, observed: seq<Receipt>, node: Node): seq<Receipt> {
    if members == [] then []
    else Gathered(members[..|members| - 1], observed, node) +
         (var m := members[|members| - 1]; if m.node == node then Matching(observed, m) else [])
  }

  function Required(members: seq<Member>, node: Node): nat {
    if members == [] then 0
    else Required(members[..|members| - 1], node) + if members[|members| - 1].node == node then 1 else 0
  }

  predicate DirectOwner(owner: Site, public: Key, legacy: bool) {
    PathOf(owner, legacy) == Some(SitePath(public, false))
  }

  /** The outcome of the relay check, with `live` standing for the incarnation check. */
  predicate SwitchAccepted(owner: Site, public: Key, legacy: bool, v: RoundView, now: int, live: Receipt -> bool) {
    var proofs := Gathered(v.committed.members, v.observed, owner.node);
    && Unfinished(v)
    && DirectOwner(owner, public, legacy)
    && 0 < Required(v.committed.members, owner.node) == |proofs|
    && ReceiptsValid(v.committed, now, proofs)
    && forall i | 0 <= i < |proofs| :: live(proofs[i])
  }

  method VisitRelaySwitch(owner: Site, public: Key, legacy: bool, v: RoundView, now: int, live: Receipt -> bool)
    returns (ok: bool)
    requires Canonical(v.committed)
    ensures ok <==> SwitchAccepted(owner, public, legacy, v, now, live)
  {
    if v.complete || v.committed.round.phase != Switch {
      return false;
    }
    var path := PathOf(owner, legacy);
    if path.None? || path.value.transit || path.value.peer != public {
      return false;
    }
    var members := v.committed.members;
    var proofs: seq<Receipt> := [];
    var required := 0;
    for k := 0 to |members|
      invariant required == Required(members[..k], owner.node)
      invariant proofs == Gathered(members[..k], v.observed, owner.node)
    {
      assert members[..k + 1][..k] == members[..k];
      if members[k].node == owner.node {
        required := required + 1;
        var before := proofs;
        for i := 0 to |v.observed|
          invariant proofs == before + Matching(v.observed[..i], members[k])
        {
          assert v.observed[..i + 1][..i] == v.observed[..i];
          if v.observed[i].node == members[k].node && v.observed[i].device == members[k].device {
            proofs := proofs + [v.observed[i]];
          }
        }
        assert v.observed[..|v.observed|] == v.observed;
      }
    }
    assert members[..|members|] == members;
    if required == 0 || |proofs| != required {
      return false;
    }
    var valid := ValidateReceipts(v.committed, now, proofs);
    if !valid {
      return false;
    }
    for k := 0 to |proofs|
      invariant forall i | 0 <= i < k :: live(proofs[i])
    {
      if !live(proofs[k]) {
        return false;
      }
    }
    ok := true;
  }

  // ----- Counting receipts is enough -----

  /** Every device `node` contributes to the round has a current, live receipt. */
  ghost predicate Switched(v: RoundView, node: Node, now: int, live: Receipt -> bool) {
    && (exists i :: 0 <= i < |v.committed.members| && v.committed.members[i].node == node)
    && forall i | 0 <= i < |v.committed.members| && v.committed.members[i].node == node ::
         DeviceSwitched(v, v.committed.members[i], now, live)
  }

  ghost predicate DeviceSwitched(v: RoundView, m: Member, now: int, live: Receipt -> bool) {
    exists r :: r in v.observed && Confirms(v.committed, r, m, now) && live(r)
  }

  /** The receipt is this device's, with its own keys, for this very round, and neither early nor stale. */
  ghost predicate Confirms(c: Committed, r: Receipt, m: Member, now: int) {
    && r.node == m.node && r.device == m.device && r.keys == m.keys && r.digest == c.digest
    && c.issuedAt <= r.observedAt <= now <= r.observedAt + c.maxAge
  }

  lemma BindsIffConfirms(c: Committed, r: Receipt, m: Member, now: int)
    requires Canonical(c) && m in c.members && r.node == m.node && r.device == m.device
    ensures Binds(c, now, r) <==> Confirms(c, r, m, now)
  {
    var i :| 0 <= i < |c.members| && c.members[i] == m;
    if j :| 0 <= j < |c.members| && c.members[j] == Member(r.node, r.device, r.keys) {
      assert i == j;
    }
  }

  function Devices(members: seq<Member>, node: Node): set<string> {
    set m | m in members && m.node == node :: m.device
  }

  lemma {:induction false} RequiredCountsDevices(members: seq<Member>, node: Node)
    requires forall i, j | 0 <= i < j < |members| ::
               members[i].node != members[j].node || members[i].device != members[j].device
    ensures Required(members, node) == |Devices(members, node)|
  {
    if members != [] {
      var front, m := members[..|members| - 1], members[|members| - 1];
      RequiredCountsDevices(front, node);
      assert members == front + [m];
      if m.node == node {
        assert Devices(members, node) == Devices(front, node) + {m.device};
        assert m.device !in Devices(front, node);
      } else {
        assert Devices(members, node) == Devices(front, node);
      }
    }
  }

  lemma {:induction false} MatchingContents(observed: seq<Receipt>, m: Member)
    ensures forall r :: r in Matching(observed, m) <==> r in observed && r.node == m.node && r.device == m.device
  {
    if observed != [] {
      var front := observed[..|observed| - 1];
      MatchingContents(front, m);
      assert observed == front + [observed[|observed| - 1]];
    }
  }

  lemma {:induction false} GatheredContents(members: seq<Member>, observed: seq<Receipt>, node: Node)
    ensures forall r | r in Gathered(members, observed, node) ::
              r in observed && r.node == node && r.device in Devices(members, node)
    ensures forall r, i | 0 <= i < |members| && members[i].node == node && r in observed && r.node == node &&
              r.device == members[i].device ::
              r in Gathered(members, observed, node)
  {
    if members != [] {
      var front, m := members[..|members| - 1], members[|members| - 1];
      GatheredContents(front, observed, node);
      MatchingContents(observed, m);
      assert members == front + [m];
    }
  }

  function DeviceSet(proofs: seq<Receipt>): set<string> {
    set r | r in proofs :: r.device
  }

  lemma {:induction false} DistinctDevicesCount(proofs: seq<Receipt>, node: Node)
    requires DistinctDevices(proofs) && forall r | r in proofs :: r.node == node
    ensures |DeviceSet(proofs)| == |proofs|
  {
    if proofs != [] {
      var front, r := proofs[..|proofs| - 1], proofs[|proofs| - 1];
      assert proofs == front + [r];
      assert forall q | q in front :: q in proofs;
      DistinctDevicesCount(front, node);
      assert r in proofs;
      assert DeviceSet(proofs) == DeviceSet(front) + {r.device};
    }
  }

  lemma SubsetOfSameSize<T>(a: set<T>, b: set<T>)
    requires a <= b && |a| == |b|
    ensures a == b
  {
    assert b == a + (b - a) && |b - a| == |b| - |a|;
  }

  /** As many distinct receipts as devices means one for each device: nothing is left unobserved. */
  lemma AcceptedMeansSwitched(owner: Site, public: Key, legacy: bool, v: RoundView, now: int, live: Receipt -> bool)
    requires Canonical(v.committed) && SwitchAccepted(owner, public, legacy, v, now, live)
    ensures Switched(v, owner.node, now, live)
  {
    var members := v.committed.members;
    var proofs := Gathered(members, v.observed, owner.node);
    RequiredCountsDevices(members, owner.node);
    GatheredContents(members, v.observed, owner.node);
    DistinctDevicesCount(proofs, owner.node);
    assert DeviceSet(proofs) <= Devices(members, owner.node);
    SubsetOfSameSize(DeviceSet(proofs), Devices(members, owner.node));
    forall i | 0 <= i < |members| && members[i].node == owner.node
      ensures DeviceSwitched(v, members[i], now, live)
    {
      assert members[i] in members && members[i].device in DeviceSet(proofs);
      var r :| r in proofs && r.device == members[i].device;
      var k :| 0 <= k < |proofs| && proofs[k] == r;
      assert Binds(v.committed, now, proofs[k]) && live(proofs[k]);
      BindsIffConfirms(v.committed, r, members[i], now);
    }
    RequiredHasMember(members, owner.node);
  }

  lemma {:induction false} RequiredHasMember(members: seq<Member>, node: Node)
    ensures 0 < Required(members, node) <==> exists i :: 0 <= i < |members| && members[i].node == node
  {
    if members != [] {
      RequiredHasMember(members[..|members| - 1], node);
      if 0 < Required(members, node) {
        if members[|members| - 1].node != node {
          var i :| 0 <= i < |members| - 1 && members[..|members| - 1][i].node == node;
          assert members[i].node == node;
        }
      } else if i :| 0 <= i < |members| && members[i].node == node {
        assert members[..|members| - 1][i].node == node;
      }
    }
  }

  /** Replay keeps one receipt per member, so an accepted view never holds a device twice. */
  predicate OnePerDevice(observed: seq<Receipt>) {
    DistinctDevices(observed)
  }

  lemma {:induction false} MatchingAtMostOne(observed: seq<Receipt>, m: Member)
    requires OnePerDevice(observed)
    ensures |Matching(observed, m)| <= 1
  {
    if observed != [] {
      var front, r := observed[..|observed| - 1], observed[|observed| - 1];
      assert forall i, j | 0 <= i < j < |front| :: front[i] == observed[i] && front[j] == observed[j];
      MatchingAtMostOne(front, m);
      MatchingContents(front, m);
      forall q | q in Matching(front, m)
        ensures q.node != r.node || q.device != r.device
      {
        var i :| 0 <= i < |front| && front[i] == q;
        assert observed[i] == q;
      }
      var found := Matching(front, m);
      assert found == [] || found[0] in found;
    }
  }

  /** Gathered receipts of a one-per-device view are distinct, and no more than required. */
  lemma {:induction false} GatheredDistinct(members: seq<Member>, observed: seq<Receipt>, node: Node)
    requires OnePerDevice(observed)
    requires forall i, j | 0 <= i < j < |members| ::
               members[i].node != members[j].node || members[i].device != members[j].device
    ensures DistinctDevices(Gathered(members, observed, node))
    ensures |Gathered(members, observed, node)| <= Required(members, node) <= |members|
  {
    if members != [] {
      var front, m := members[..|members| - 1], members[|members| - 1];
      assert members == front + [m];
      GatheredDistinct(front, observed, node);
      GatheredContents(front, observed, node);
      MatchingAtMostOne(observed, m);
      MatchingContents(observed, m);
      if m.node == node {
        assert m.device !in Devices(front, node);
        var a, b := Gathered(front, observed, node), Matching(observed, m);
        var all: seq<Receipt> := a + b;
        forall i, j | 0 <= i < j < |all|
          ensures all[i].node != all[j].node || all[i].device != all[j].device
        {
          if i < |a| <= j {
            assert a[i] in a && b[j - |a|] in b;
          }
        }
      }
    }
  }

  /** The only receipt a one-per-device view holds for a switched device is the valid one. */
  lemma SwitchedReceipt(v: RoundView, node: Node, now: int, live: Receipt -> bool, r: Receipt)
    requires Canonical(v.committed) && OnePerDevice(v.observed) && Switched(v, node, now, live)
    requires r in v.observed && r.node == node && r.device in Devices(v.committed.members, node)
    ensures Binds(v.committed, now, r) && live(r)
  {
    var m :| m in v.committed.members && m.node == node && m.device == r.device;
    var i :| 0 <= i < |v.committed.members| && v.committed.members[i] == m;
    assert DeviceSwitched(v, v.committed.members[i], now, live);
    var q :| q in v.observed && Confirms(v.committed, q, m, now) && live(q);
    BindsIffConfirms(v.committed, q, m, now);
    var a :| 0 <= a < |v.observed| && v.observed[a] == q;
    var b :| 0 <= b < |v.observed| && v.observed[b] == r;
    assert a == b;
  }

  lemma SwitchedDevicesGathered(v: RoundView, node: Node, now: int, live: Receipt -> bool)
    requires Canonical(v.committed) && OnePerDevice(v.observed) && Switched(v, node, now, live)
    ensures var proofs := Gathered(v.committed.members, v.observed, node);
            && |proofs| == Required(v.committed.members, node)
            && forall k | 0 <= k < |proofs| :: Binds(v.committed, now, proofs[k]) && live(proofs[k])
  {
    var members := v.committed.members;
    var proofs := Gathered(members, v.observed, node);
    GatheredContents(members, v.observed, node);
    forall d | d in Devices(members, node)
      ensures d in DeviceSet(proofs)
    {
      var m :| m in members && m.node == node && m.device == d;
      var i :| 0 <= i < |members| && members[i] == m;
      assert DeviceSwitched(v, members[i], now, live);
      var r :| r in v.observed && Confirms(v.committed, r, m, now) && live(r);
      assert r in proofs;
    }
    assert Devices(members, node) == DeviceSet(proofs);
    RequiredCountsDevices(members, node);
    GatheredDistinct(members, v.observed, node);
    DistinctDevicesCount(proofs, node);
    forall k | 0 <= k < |proofs|
      ensures Binds(v.committed, now, proofs[k]) && live(proofs[k])
    {
      assert proofs[k] in proofs;
      SwitchedReceipt(v, node, now, live, proofs[k]);
    }
  }

  /** On views the journal can produce, the check accepts exactly the switched relays of a current round. */
  lemma AcceptedIffSwitched(owner: Site, public: Key, legacy: bool, v: RoundView, now: int, live: Receipt -> bool)
    requires Canonical(v.committed) && OnePerDevice(v.observed)
    ensures SwitchAccepted(owner, public, legacy, v, now, live) <==>
            && Unfinished(v) && v.committed.issuedAt <= now < v.committed.expiresAt
            && DirectOwner(owner, public, legacy) && Switched(v, owner.node, now, live)
  {
    if SwitchAccepted(owner, public, legacy, v, now, live) {
      AcceptedMeansSwitched(owner, public, legacy, v, now, live);
    }
    if Switched(v, owner.node, now, live) {
      SwitchedDevicesGathered(v, owner.node, now, live);
      RequiredHasMember(v.committed.members, owner.node);
      GatheredDistinct(v.committed.members, v.observed, owner.node);
    }
  }
}
