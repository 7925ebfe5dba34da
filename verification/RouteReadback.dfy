/**
 Readback of installed receiver routes, and what it says about every packet.

 The readback compares finite lists of prefixes. Its meaning is about addresses: wherever
 a selected destination matches, the kernel's longest-prefix match picks the route the
 selection names. The legacy-peer check does the same for WireGuard's accept lists.
 */
module RouteReadback {
  import opened Options
  import opened Prefixes

  type Link = int
  type Host = string

  /** `plain` says the route has no multipath, via, encapsulation, rewrite or type of service. */
  datatype Route = Route(dst: Option<Prefix>, link: Link, unicast: bool, priority: int,
                         gateway: Option<Host>, source: Option<Host>, plain: bool)

  /** Linux stores the default IPv6 user metric for an unspecified one. */
  function Priority(dst: Prefix): int {
    if dst.family == V6 then 1024 else 0
  }

  /** The selection to verify: an egress link per destination, and a gateway for relayed ones. */
  datatype Selection = Selection(links: map<Prefix, Link>, gateways: map<Prefix, Host>)

  function Gateway(sel: Selection, dst: Prefix): Option<Host> {
    if dst in sel.gateways then Some(sel.gateways[dst]) else None
  }

  /** The relay's link where there is one, else the receiver's, else, in a scoped pass, the legacy device. */
  ghost predicate Follows(links: map<Prefix, Link>, receivers: map<Prefix, Link>, relays: map<Prefix, Link>,
                          legacy: Option<Link>) {
    forall d | d in links ::
      && (d in relays ==> links[d] == relays[d])
      && (d !in relays && d in receivers ==> links[d] == receivers[d])
      && (d !in relays && d !in receivers ==> legacy == Some(links[d]))
  }

  /** Relays over receivers, then the legacy device for whatever a scoped pass leaves over. */
  method BuildSelection(receivers: map<Prefix, Link>, relays: map<Prefix, Link>, gateways: map<Prefix, Host>,
                        scoped: bool, destinations: seq<Prefix>, legacy: Option<Link>) returns (sel: Option<Selection>)
    ensures sel.Some? ==> sel.value.gateways == gateways
    ensures sel.Some? ==>
              sel.value.links.Keys == receivers.Keys + relays.Keys + (if scoped then set d | d in destinations else {})
    ensures sel.Some? ==> Follows(sel.value.links, receivers, relays, legacy)
    ensures sel.None? <==> scoped && legacy.None? && exists d :: d in destinations && d !in receivers && d !in relays
  {
    var links := receivers + relays;
    if scoped {
      for k := 0 to |destinations|
        invariant links.Keys == receivers.Keys + relays.Keys + (set i | 0 <= i < k :: destinations[i])
        invariant Follows(links, receivers, relays, legacy)
        invariant legacy.None? ==> forall i | 0 <= i < k :: destinations[i] in receivers || destinations[i] in relays
      {
        if destinations[k] in links {
          continue;
        }
        if legacy.None? {
          return None;
        }
        links := links[destinations[k] := legacy.value];
      }
    }
    sel := Some(Selection(links, gateways));
  }

  predicate ShadowFree(routes: seq<Route>, sel: Selection, p: Prefix) {
    forall i | 0 <= i < |routes| && routes[i].dst.Some? && routes[i].dst.value != p && Covers(p, routes[i].dst.value) ::
      routes[i].dst.value in sel.links
  }

  predicate Faithful(route: Route, sel: Selection, p: Prefix, source: Prefix -> Option<Host>)
    requires p in sel.links
  {
    && route.link == sel.links[p]
    && route.unicast && route.plain
    && route.priority == Priority(p)
    && route.gateway == Gateway(sel, p)
    && route.source == source(p)
  }

  function Exact(routes: seq<Route>, p: Prefix): nat {
    if routes == [] then 0
    else Exact(routes[..|routes| - 1], p) + if routes[|routes| - 1].dst == Some(p) then 1 else 0
  }

  predicate DestinationVerified(routes: seq<Route>, sel: Selection, p: Prefix, source: Prefix -> Option<Host>)
    requires p in sel.links
  {
    && ShadowFree(routes, sel, p)
    && Exact(routes, p) == 1
    && forall i | 0 <= i < |routes| && routes[i].dst == Some(p) :: Faithful(routes[i], sel, p, source)
  }

  predicate Verified(routes: seq<Route>, sel: Selection, scope: set<Prefix>, source: Prefix -> Option<Host>) {
    && (forall i | 0 <= i < |routes| && routes[i].dst.Some? && routes[i].dst.value in scope ::
         routes[i].dst.value in sel.links)
    && forall p | p in sel.links :: DestinationVerified(routes, sel, p, source)
  }

  method VerifyDestination(routes: seq<Route>, sel: Selection, p: Prefix, source: Prefix -> Option<Host>)
    returns (ok: bool)
    requires p in sel.links
    ensures ok <==> DestinationVerified(routes, sel, p, source)
  {
    var count := 0;
    for k := 0 to |routes|
      invariant count == Exact(routes[..k], p)
      invariant forall i | 0 <= i < k && routes[i].dst.Some? && routes[i].dst.value != p &&
                  Covers(p, routes[i].dst.value) ::
                  routes[i].dst.value in sel.links
      invariant forall i | 0 <= i < k && routes[i].dst == Some(p) :: Faithful(routes[i], sel, p, source)
    {
      assert routes[..k + 1][..k] == routes[..k];
      var route := routes[k];
      if route.dst.None? {
        continue;
      }
      var actual := route.dst.value;
      if actual != p {
        if actual.family == p.family && |actual.bits| > |p.bits| && p.bits <= actual.bits {
          if actual !in sel.links {
            return false;
          }
        }
        continue;
      }
      count := count + 1;
      if route.link != sel.links[p] || !route.unicast || route.priority != Priority(p) ||
        route.gateway != Gateway(sel, p) || !route.plain || route.source != source(p) {
        return false;
      }
    }
    assert routes[..|routes|] == routes;
    ok := count == 1;
  }

  /** A nil scope is the empty set here: both admit every unselected route. */
  method VerifyDestinations(routes: seq<Route>, sel: Selection, scope: set<Prefix>, source: Prefix -> Option<Host>)
    returns (ok: bool)
    ensures ok <==> Verified(routes, sel, scope, source)
  {
    for k := 0 to |routes|
      invariant forall i | 0 <= i < k && routes[i].dst.Some? && routes[i].dst.value in scope ::
                  routes[i].dst.value in sel.links
    {
      if routes[k].dst.Some? && routes[k].dst.value in scope && routes[k].dst.value !in sel.links {
        return false;
      }
    }
    var todo := sel.links.Keys;
    while todo != {}
      invariant todo <= sel.links.Keys
      invariant forall p | p in sel.links && p !in todo :: DestinationVerified(routes, sel, p, source)
    {
      var p :| p in todo;
      todo := todo - {p};
      var verified := VerifyDestination(routes, sel, p, source);
      if !verified {
        return false;
      }
    }
    ok := true;
  }

  // ----- Longest-prefix match -----

  predicate RouteMatches(route: Route, a: Address) {
    route.dst.None? || Matches(route.dst.value, a)
  }

  function Specificity(route: Route): nat {
    if route.dst.None? then 0 else |route.dst.value.bits|
  }

  /** Route `i` is a longest match for `a` in the kernel table. */
  predicate KernelPicks(routes: seq<Route>, a: Address, i: int) {
    && 0 <= i < |routes|
    && RouteMatches(routes[i], a)
    && forall j | 0 <= j < |routes| && RouteMatches(routes[j], a) :: Specificity(routes[j]) <= Specificity(routes[i])
  }

  /** `p` is the longest selected destination that matches `a`. */
  predicate SelectionPicks(sel: Selection, a: Address, p: Prefix) {
    && p in sel.links && Matches(p, a)
    && forall q | q in sel.links && Matches(q, a) :: |q.bits| <= |p.bits|
  }

  lemma {:induction false} ExactIsUnique(routes: seq<Route>, p: Prefix)
    requires Exact(routes, p) == 1
    ensures exists i ::
              && 0 <= i < |routes| && routes[i].dst == Some(p)
              && forall j | 0 <= j < |routes| && routes[j].dst == Some(p) :: j == i
  {
    var front := routes[..|routes| - 1];
    if routes[|routes| - 1].dst == Some(p) {
      NoneExact(front, p);
      assert forall j | 0 <= j < |front| :: front[j] == routes[j];
      assert routes[|routes| - 1].dst == Some(p);
    } else {
      ExactIsUnique(front, p);
      var i :| 0 <= i < |front| && front[i].dst == Some(p) && forall j | 0 <= j < |front| && front[j].dst == Some(p) ::
        j == i;
      assert forall j | 0 <= j < |front| :: front[j] == routes[j];
      assert routes[i].dst == Some(p);
    }
  }

  lemma {:induction false} NoneExact(routes: seq<Route>, p: Prefix)
    requires Exact(routes, p) == 0
    ensures forall i | 0 <= i < |routes| :: routes[i].dst != Some(p)
  {
    if routes != [] {
      NoneExact(routes[..|routes| - 1], p);
      assert forall i | 0 <= i < |routes| - 1 :: routes[..|routes| - 1][i] == routes[i];
    }
  }

  /** No unselected route can be a longer match than a selected one. */
  lemma PickedRouteIsSelected(routes: seq<Route>, sel: Selection, scope: set<Prefix>, source: Prefix -> Option<Host>,
                              a: Address, p: Prefix, i: int)
    requires Verified(routes, sel, scope, source)
    requires p in sel.links && Matches(p, a) && |p.bits| > 0
    requires KernelPicks(routes, a, i)
    ensures routes[i].dst.Some? && routes[i].dst.value in sel.links && |p.bits| <= |routes[i].dst.value.bits|
  {
    assert DestinationVerified(routes, sel, p, source);
    ExactIsUnique(routes, p);
    var k :| 0 <= k < |routes| && routes[k].dst == Some(p);
    assert RouteMatches(routes[k], a);
    var q := routes[i].dst.value;
    MatchesAreNested(p, q, a);
  }

  /** The kernel forwards `a` by one route only, and that route is what the selection asks for `p`. */
  ghost predicate ForwardedAs(routes: seq<Route>, sel: Selection, source: Prefix -> Option<Host>, a: Address, p: Prefix)
    requires p in sel.links
  {
    exists i :: KernelPicks(routes, a, i) && Carries(routes[i], sel, source, p)
                && forall j | KernelPicks(routes, a, j) :: j == i
  }

  /**
   A plain unicast route to `p` over the selected link and gateway, with the source and the user
   metric the kernel stores for its family.
   */
  ghost predicate Carries(route: Route, sel: Selection, source: Prefix -> Option<Host>, p: Prefix)
    requires p in sel.links
  {
    && route.dst == Some(p) && route.link == sel.links[p] && route.unicast && route.plain
    && (route.gateway.Some? <==> p in sel.gateways) && (p in sel.gateways ==> route.gateway.value == sel.gateways[p])
    && route.source == source(p)
    && match p.family case V4 => route.priority == 0 case V6 => route.priority == 1024
  }

  lemma LongestSelectionDecides(routes: seq<Route>, sel: Selection, scope: set<Prefix>,
                                source: Prefix -> Option<Host>, a: Address, p: Prefix)
    requires Verified(routes, sel, scope, source)
    requires SelectionPicks(sel, a, p) && |p.bits| > 0
    ensures ForwardedAs(routes, sel, source, a, p)
  {
    assert DestinationVerified(routes, sel, p, source);
    ExactIsUnique(routes, p);
    var i :| && 0 <= i < |routes| && routes[i].dst == Some(p)
             && forall j | 0 <= j < |routes| && routes[j].dst == Some(p) :: j == i;
    forall j | 0 <= j < |routes| && RouteMatches(routes[j], a)
      ensures Specificity(routes[j]) <= |p.bits|
    {
      if |p.bits| < Specificity(routes[j]) {
        MatchesAreNested(p, routes[j].dst.value, a);
      }
    }
    assert KernelPicks(routes, a, i);
    forall j | KernelPicks(routes, a, j)
      ensures j == i
    {
      PickedRouteIsSelected(routes, sel, scope, source, a, p, j);
      MatchesAreNested(p, routes[j].dst.value, a);
    }
  }

  /** Some selected destination is longest wherever any selected destination matches. */
  lemma {:induction false} LongestSelected(sel: Selection, a: Address, p: Prefix)
    requires p in sel.links && Matches(p, a)
    ensures exists q :: SelectionPicks(sel, a, q) && |p.bits| <= |q.bits|
    decreases |a.bits| - |p.bits|
  {
    if !SelectionPicks(sel, a, p) {
      var q :| q in sel.links && Matches(q, a) && |p.bits| < |q.bits|;
      LongestSelected(sel, a, q);
    }
  }

  /**
   After a successful readback, every address under a selected destination is forwarded by
   exactly one kernel route, the one the longest selected destination asks for: same link,
   same gateway, same source.
   */
  lemma ReadbackDecidesEveryAddress(routes: seq<Route>, sel: Selection, scope: set<Prefix>,
                                    source: Prefix -> Option<Host>, a: Address, p: Prefix)
    requires Verified(routes, sel, scope, source)
    requires p in sel.links && Matches(p, a) && |p.bits| > 0
    ensures exists q :: SelectionPicks(sel, a, q) && ForwardedAs(routes, sel, source, a, q)
  {
    LongestSelected(sel, a, p);
    var q :| SelectionPicks(sel, a, q) && |p.bits| <= |q.bits|;
    LongestSelectionDecides(routes, sel, scope, source, a, q);
  }

  // ----- WireGuard accept lists -----

  datatype Peer = Peer(key: string, allowed: seq<Prefix>)

  /** The longest of the peer's own prefixes around `dst`, or -1 when none covers it. */
  function Coverage(allowed: seq<Prefix>, dst: Prefix): (c: int)
    ensures c >= -1
    ensures c >= 0 ==> exists p :: p in allowed && Covers(p, dst) && |p.bits| == c
    ensures forall p | p in allowed && Covers(p, dst) :: |p.bits| <= c
  {
    if allowed == [] then -1
    else
      var last := allowed[|allowed| - 1];
      var c := Coverage(allowed[..|allowed| - 1], dst);
      assert allowed == allowed[..|allowed| - 1] + [last];
      if Covers(last, dst) && |last.bits| > c then
        assert last in allowed && Covers(last, dst) && |last.bits| == |last.bits|;
        |last.bits|
      else c
  }

  predicate Unshadowed(peers: seq<Peer>, own: string, dst: Prefix, coverage: int) {
    forall k, q | 0 <= k < |peers| && peers[k].key != own && q in peers[k].allowed && Overlaps(q, dst) ::
      |q.bits| < coverage
  }

  /** Last peer with the key wins, as in a scan that keeps overwriting its result. */
  function OwnPeer(peers: seq<Peer>, own: string): Option<Peer> {
    if peers == [] then None
    else if peers[|peers| - 1].key == own then Some(peers[|peers| - 1])
    else OwnPeer(peers[..|peers| - 1], own)
  }

  predicate LegacyPeerVerified(peers: seq<Peer>, own: string, destinations: seq<Prefix>, current: Peer -> bool) {
    && OwnPeer(peers, own).Some? && current(OwnPeer(peers, own).value)
    && forall d | d in destinations :: Carried(peers, own, d)
  }

  predicate Carried(peers: seq<Peer>, own: string, dst: Prefix)
    requires OwnPeer(peers, own).Some?
  {
    var c := Coverage(OwnPeer(peers, own).value.allowed, dst);
    0 <= c && Unshadowed(peers, own, dst, c)
  }

  method ScanShadows(peers: seq<Peer>, own: string, dst: Prefix, coverage: int) returns (ok: bool)
    ensures ok <==> Unshadowed(peers, own, dst, coverage)
  {
    for k := 0 to |peers|
      invariant forall j, q | 0 <= j < k && peers[j].key != own && q in peers[j].allowed && Overlaps(q, dst) ::
                  |q.bits| < coverage
    {
      if peers[k].key == own {
        continue;
      }
      for i := 0 to |peers[k].allowed|
        invariant forall q | q in peers[k].allowed[..i] && Overlaps(q, dst) :: |q.bits| < coverage
      {
        var q := peers[k].allowed[i];
        if Overlaps(q, dst) && |q.bits| >= coverage {
          assert q in peers[k].allowed;
          return false;
        }
      }
      assert peers[k].allowed[..|peers[k].allowed|] == peers[k].allowed;
    }
    ok := true;
  }

  method ScanCoverage(allowed: seq<Prefix>, dst: Prefix) returns (coverage: int)
    ensures coverage == Coverage(allowed, dst)
  {
    coverage := -1;
    for k := 0 to |allowed|
      invariant coverage == Coverage(allowed[..k], dst)
    {
      var p := allowed[k];
      assert allowed[..k + 1][..k] == allowed[..k];
      if p.family == dst.family && |p.bits| <= |dst.bits| && p.bits <= dst.bits && |p.bits| > coverage {
        coverage := |p.bits|;
      }
    }
    assert allowed[..|allowed|] == allowed;
  }

  /** `current` stands for the device identity, permission and handshake checks on the peer. */
  method VerifyLegacyPeer(peers: seq<Peer>, own: string, destinations: seq<Prefix>, current: Peer -> bool)
    returns (ok: bool)
    ensures ok <==> LegacyPeerVerified(peers, own, destinations, current)
  {
    var selected: Option<Peer> := None;
    for k := 0 to |peers|
      invariant selected == OwnPeer(peers[..k], own)
    {
      assert peers[..k + 1][..k] == peers[..k];
      if peers[k].key == own {
        selected := Some(peers[k]);
      }
    }
    assert peers[..|peers|] == peers;
    if selected.None? || !current(selected.value) {
      return false;
    }
    for d := 0 to |destinations|
      invariant forall e | 0 <= e < d :: Carried(peers, own, destinations[e])
    {
      var coverage := ScanCoverage(selected.value.allowed, destinations[d]);
      if coverage < 0 {
        assert !Carried(peers, own, destinations[d]);
        return false;
      }
      var unshadowed := ScanShadows(peers, own, destinations[d], coverage);
      if !unshadowed {
        assert !Carried(peers, own, destinations[d]);
        return false;
      }
    }
    ok := true;
  }

  ghost predicate LongestAccept(peers: seq<Peer>, a: Address, p: Prefix) {
    && Matches(p, a)
    && forall j, q | 0 <= j < |peers| && q in peers[j].allowed && Matches(q, a) :: |q.bits| <= |p.bits|
  }

  /** Peer `k` owns a longest accept-list match for `a`. */
  ghost predicate Accepts(peers: seq<Peer>, a: Address, k: int) {
    0 <= k < |peers| && exists p :: p in peers[k].allowed && LongestAccept(peers, a, p)
  }

  lemma {:induction false} SomePeerAccepts(peers: seq<Peer>, a: Address, k: int, p: Prefix)
    requires 0 <= k < |peers| && p in peers[k].allowed && Matches(p, a)
    ensures exists j :: Accepts(peers, a, j)
    decreases |a.bits| - |p.bits|
  {
    if LongestAccept(peers, a, p) {
      assert Accepts(peers, a, k);
    } else {
      var j, q :| 0 <= j < |peers| && q in peers[j].allowed && Matches(q, a) && |p.bits| < |q.bits|;
      SomePeerAccepts(peers, a, j, q);
    }
  }

  lemma {:induction false} OwnPeerIndex(peers: seq<Peer>, own: string) returns (k: int)
    requires OwnPeer(peers, own).Some?
    ensures 0 <= k < |peers| && peers[k] == OwnPeer(peers, own).value && peers[k].key == own
  {
    if peers[|peers| - 1].key == own {
      k := |peers| - 1;
    } else {
      k := OwnPeerIndex(peers[..|peers| - 1], own);
    }
  }

  lemma OwnCover(peers: seq<Peer>, own: string, dst: Prefix, a: Address) returns (o: int, cover: Prefix)
    requires OwnPeer(peers, own).Some? && Carried(peers, own, dst) && Matches(dst, a)
    ensures 0 <= o < |peers| && cover in peers[o].allowed && Matches(cover, a)
    ensures |cover.bits| == Coverage(OwnPeer(peers, own).value.allowed, dst)
  {
    o := OwnPeerIndex(peers, own);
    cover :| cover in peers[o].allowed && Covers(cover, dst) && |cover.bits| == Coverage(peers[o].allowed, dst);
    assert cover.bits == dst.bits[..|cover.bits|] && dst.bits == a.bits[..|dst.bits|];
  }

  /** Every address of a verified destination is carried, by the worker's own peer and no other. */
  lemma LegacyPeerCarriesEveryAddress(peers: seq<Peer>, own: string, dst: Prefix, a: Address)
    requires OwnPeer(peers, own).Some? && Carried(peers, own, dst) && Matches(dst, a)
    ensures exists k :: Accepts(peers, a, k)
    ensures forall k | Accepts(peers, a, k) :: peers[k].key == own
  {
    var o, cover := OwnCover(peers, own, dst, a);
    SomePeerAccepts(peers, a, o, cover);
    forall k | Accepts(peers, a, k)
      ensures peers[k].key == own
    {
      var p :| p in peers[k].allowed && LongestAccept(peers, a, p);
      assert |cover.bits| <= |p.bits|;
      assert Overlaps(p, dst) by { OverlapIffCommonAddress(p, dst); }
    }
  }

  ghost predicate DistinctKeys(peers: seq<Peer>) {
    forall i, j | 0 <= i < |peers| && 0 <= j < |peers| && peers[i].key == peers[j].key :: i == j
  }

  /** Someone else's accept list in the way takes some address of the destination. */
  lemma ShadowTakesAnAddress(peers: seq<Peer>, own: string, dst: Prefix, k: int, q: Prefix) returns (a: Address)
    requires OwnPeer(peers, own).Some? && DistinctKeys(peers)
    requires 0 <= k < |peers| && peers[k].key != own && q in peers[k].allowed && Overlaps(q, dst)
    requires Coverage(OwnPeer(peers, own).value.allowed, dst) <= |q.bits|
    ensures Matches(dst, a) && exists j :: Accepts(peers, a, j) && peers[j].key != own
  {
    a := Address(dst.family, if Covers(q, dst) then dst.bits else q.bits);
    var j, p := LongestForeign(peers, own, a, k, q);
    var o := OwnPeerIndex(peers, own);
    forall i, r | 0 <= i < |peers| && r in peers[i].allowed && Matches(r, a)
      ensures |r.bits| <= |p.bits|
    {
      if peers[i].key == own {
        assert i == o && (Covers(q, dst) ==> Covers(r, dst));
      }
    }
    assert LongestAccept(peers, a, p);
    assert Accepts(peers, a, j);
  }

  predicate Longer(r: Prefix, q: Prefix, a: Address) {
    Matches(r, a) && |q.bits| < |r.bits|
  }

  /** The longest match for `a` among the peers other than `own`. */
  lemma {:induction false} LongestForeign(peers: seq<Peer>, own: string, a: Address, k: int, q: Prefix)
    returns (j: int, p: Prefix)
    requires 0 <= k < |peers| && peers[k].key != own && q in peers[k].allowed && Matches(q, a)
    ensures 0 <= j < |peers| && peers[j].key != own && p in peers[j].allowed && Matches(p, a) && |q.bits| <= |p.bits|
    ensures forall i, r | 0 <= i < |peers| && peers[i].key != own && r in peers[i].allowed && Matches(r, a) ::
              |r.bits| <= |p.bits|
    decreases |a.bits| - |q.bits|
  {
    if i, r :| 0 <= i < |peers| && peers[i].key != own && r in peers[i].allowed && Longer(r, q, a) {
      j, p := LongestForeign(peers, own, a, i, r);
    } else {
      j, p := k, q;
      forall i, r | 0 <= i < |peers| && peers[i].key != own && r in peers[i].allowed && Matches(r, a)
        ensures |r.bits| <= |q.bits|
      {
        assert !Longer(r, q, a);
      }
    }
  }

  /**
   The check is exact: a destination is carried if and only if one of the worker's own prefixes
   contains it and every address of it resolves to the worker's own peer alone.
   */
  lemma CarriedIff(peers: seq<Peer>, own: string, dst: Prefix)
    requires OwnPeer(peers, own).Some? && DistinctKeys(peers)
    ensures Carried(peers, own, dst) <==>
            && (exists p :: p in OwnPeer(peers, own).value.allowed && Covers(p, dst))
            && forall a, k | Matches(dst, a) && Accepts(peers, a, k) :: peers[k].key == own
  {
    if Carried(peers, own, dst) {
      forall a | Matches(dst, a)
        ensures forall k | Accepts(peers, a, k) :: peers[k].key == own
      {
        LegacyPeerCarriesEveryAddress(peers, own, dst, a);
      }
    } else if p :| p in OwnPeer(peers, own).value.allowed && Covers(p, dst) {
      var c := Coverage(OwnPeer(peers, own).value.allowed, dst);
      var k, q :| 0 <= k < |peers| && peers[k].key != own && q in peers[k].allowed && Overlaps(q, dst) && c <= |q.bits|;
      var a := ShadowTakesAnAddress(peers, own, dst, k, q);
    }
  }
}
