/**
 Admission of a whole set of journals, for handover members and for follower nodes that
 have no tunnel of their own, and its agreement with the protocol's ordering guard.
 */
module RelayAdmission {
  import opened Handover
  import opened Options
  import opened RelayGuard
  import RelayProtocol

  /** The path graph a view selects; the flag marks the worker's original root transport. */
  function SelectedTransport(plan: Plan, v: RoundView): Option<(map<Key, Site>, bool)> {
    var generation := Selected(Outline(v, {}));
    if plan.previous.Some? && generation == plan.previous.value.generation then Some((plan.previous.value.sites, false))
    else if plan.previous.None? && generation == plan.rootGeneration then Some((plan.sites, true))
    else if generation == plan.receiverGeneration then Some((plan.sites, false))
    else None
  }

  // ----- Members -----

  predicate ViewAgrees(intent: Intent, machine: Machine, target: Machine, targetView: RoundView) {
    machine in intent.views && (machine == target ==> intent.views[machine] == targetView)
  }

  /** The sites whose paths this machine's check looks at, or None when its selection is refused. */
  function CheckedSites(intent: Intent, machine: Machine, target: Machine, targetView: RoundView)
    : Option<map<Key, Site>>
    requires machine in intent.plans
  {
    var plan := intent.plans[machine];
    if plan.previous.None? then Some(plan.sites)
    else if !ViewAgrees(intent, machine, target, targetView) || machine in intent.legacy then None
    else
      match SelectedTransport(plan, intent.views[machine])
      case Some((sites, root)) => if root then None else Some(sites)
      case None => None
  }

  predicate SiteChecked(intent: Intent, machine: Machine, sites: map<Key, Site>, key: Key, node: Node,
                        target: Machine, targetView: RoundView, now: int, live: Receipt -> bool)
    requires machine in intent.plans && key in sites
  {
    var legacy := machine in intent.legacy;
    var path := PathOf(sites[key], legacy);
    sites[key].node == node && path.Some? && path.value.transit ==>
      && ViewAgrees(intent, machine, target, targetView)
      && var v := intent.views[machine];
         Unfinished(v) ==>
           && (intent.plans[machine].previous.None? ==> (legacy <==> v.rollbackRequested))
           && path.value.peer in sites && sites[path.value.peer].node != node
           && SwitchAccepted(sites[path.value.peer], path.value.peer, legacy, v, now, live)
  }

  predicate MachineChecked(intent: Intent, machine: Machine, node: Node, target: Machine, targetView: RoundView,
                           now: int, live: Receipt -> bool)
    requires machine in intent.plans
  {
    var sites := CheckedSites(intent, machine, target, targetView);
    sites.Some? && forall key | key in sites.value ::
      SiteChecked(intent, machine, sites.value, key, node, target, targetView, now, live)
  }

  ghost predicate CanonicalViews(intent: Intent) {
    forall machine | machine in intent.views :: Canonical(intent.views[machine].committed)
  }

  method VisitSites(intent: Intent, machine: Machine, sites: map<Key, Site>, node: Node,
                    target: Machine, targetView: RoundView, now: int, live: Receipt -> bool) returns (ok: bool)
    requires machine in intent.plans && CanonicalViews(intent)
    ensures ok <==>
              forall key | key in sites :: SiteChecked(intent, machine, sites, key, node, target, targetView, now, live)
  {
    var legacy := machine in intent.legacy;
    var todo := sites.Keys;
    while todo != {}
      invariant todo <= sites.Keys
      invariant forall key | key in sites && key !in todo ::
                  SiteChecked(intent, machine, sites, key, node, target, targetView, now, live)
    {
      var key :| key in todo;
      todo := todo - {key};
      var path := PathOf(sites[key], legacy);
      if sites[key].node != node || path.None? || !path.value.transit {
        continue;
      }
      if machine !in intent.views || (machine == target && intent.views[machine] != targetView) {
        return false;
      }
      var v := intent.views[machine];
      if v.complete || v.committed.round.phase != Switch {
        continue;
      }
      if intent.plans[machine].previous.None? && legacy != v.rollbackRequested {
        return false;
      }
      if path.value.peer !in sites || sites[path.value.peer].node == node {
        return false;
      }
      var accepted := VisitRelaySwitch(sites[path.value.peer], path.value.peer, legacy, v, now, live);
      if !accepted {
        return false;
      }
    }
    ok := true;
  }

  /** Combined routes reapply every worker, so every journal's order is checked, not only the target's. */
  method VisitRelayDependencies(intent: Intent, node: Node, target: Machine, targetView: RoundView, now: int,
                                live: Receipt -> bool) returns (ok: bool)
    requires CanonicalViews(intent)
    ensures ok <==>
              forall machine | machine in intent.plans ::
              MachineChecked(intent, machine, node, target, targetView, now, live)
  {
    var todo := intent.plans.Keys;
    while todo != {}
      invariant todo <= intent.plans.Keys
      invariant forall machine | machine in intent.plans && machine !in todo ::
                  MachineChecked(intent, machine, node, target, targetView, now, live)
    {
      var machine :| machine in todo;
      todo := todo - {machine};
      var plan := intent.plans[machine];
      var sites := plan.sites;
      if plan.previous.Some? {
        if machine !in intent.views || machine in intent.legacy ||
          (machine == target && intent.views[machine] != targetView) {
          return false;
        }
        var active := SelectedTransport(plan, intent.views[machine]);
        if active.None? || active.value.1 {
          return false;
        }
        sites := active.value.0;
      }
      var checked := VisitSites(intent, machine, sites, node, target, targetView, now, live);
      if !checked {
        return false;
      }
    }
    ok := true;
  }

  // ----- The generations of a plan -----

  /** One committed transport: the sites of a generation, and whether they forward on their root paths. */
  datatype Transport = Transport(sites: map<Key, Site>, root: bool)

  /**
   What each generation a plan names stands for: its own receivers, and either the receivers of
   the plan it succeeds or, for the first plan of a worker, the original root transport.
   */
  ghost predicate Catalogued(plan: Plan, catalog: map<Generation, Transport>) {
    var opening := match plan.previous case Some(p) => p.generation case None => plan.rootGeneration;
    && catalog.Keys == {opening, plan.receiverGeneration}
    && catalog[plan.receiverGeneration] == Transport(plan.sites, false)
    && catalog[opening] == match plan.previous
                           case Some(p) => Transport(p.sites, false)
                           case None => Transport(plan.sites, true)
  }

  /** A view selects a transport exactly when its plan knows the selected generation, and then that one. */
  lemma SelectsCatalogued(plan: Plan, catalog: map<Generation, Transport>, v: RoundView)
    requires Catalogued(plan, catalog)
    ensures var g := Selected(Outline(v, {}));
            && (SelectedTransport(plan, v).Some? <==> g in catalog)
            && (g in catalog ==> SelectedTransport(plan, v).value == (catalog[g].sites, catalog[g].root))
  {
    var opening := match plan.previous case Some(p) => p.generation case None => plan.rootGeneration;
    assert Selected(Outline(v, {})) in catalog <==>
           Selected(Outline(v, {})) == opening || Selected(Outline(v, {})) == plan.receiverGeneration;
  }

  // ----- Agreement with the protocol -----

  ghost predicate UniqueNodes(sites: map<Key, Site>) {
    forall a, b | a in sites && b in sites && sites[a].node == sites[b].node :: a == b
  }

  /** A committed site path as the protocol sees it; a path through an unknown key relays to nobody. */
  function Vertex(sites: map<Key, Site>, root: bool, site: Site): RelayProtocol.Path {
    match if root then site.legacy else site.forward
    case None => RelayProtocol.Unplanned
    case Some(p) =>
      if !p.transit then RelayProtocol.Direct
      else RelayProtocol.Via(if p.peer in sites then sites[p.peer].node else site.node)
  }

  ghost predicate GraphOf(t: Transport, graph: map<Node, RelayProtocol.Path>) {
    && UniqueNodes(t.sites)
    && (forall key | key in t.sites ::
          t.sites[key].node in graph && graph[t.sites[key].node] == Vertex(t.sites, t.root, t.sites[key]))
    && forall n | n in graph :: exists key :: key in t.sites && t.sites[key].node == n
  }

  /** The protocol's graphs for one worker: one per generation its plan names. */
  ghost predicate Graphs(plan: Plan, catalog: map<Generation, Transport>,
                         graphs: map<Generation, map<Node, RelayProtocol.Path>>) {
    && Catalogued(plan, catalog)
    && forall g | g in catalog :: g in graphs && GraphOf(catalog[g], graphs[g])
  }

  /** What route planning establishes: the selected generation is known, and `legacy` marks the root transport. */
  ghost predicate Planned(intent: Intent, machine: Machine, catalog: map<Generation, Transport>) {
    && machine in intent.plans && machine in intent.views
    && Catalogued(intent.plans[machine], catalog)
    && var g := Selected(Outline(intent.views[machine], {}));
       g in catalog && (machine in intent.legacy <==> catalog[g].root)
  }

  /** The view with every node counted as observed once all its devices have switched. */
  ghost function Observation(v: RoundView, now: int, live: Receipt -> bool): View {
    Outline(v, set i | 0 <= i < |v.committed.members| && Switched(v, v.committed.members[i].node, now, live) ::
      v.committed.members[i].node)
  }

  lemma ObservedIffSwitched(v: RoundView, node: Node, now: int, live: Receipt -> bool)
    ensures node in Observation(v, now, live).observed <==> Switched(v, node, now, live)
  {
    if Switched(v, node, now, live) {
      var i :| 0 <= i < |v.committed.members| && v.committed.members[i].node == node;
    }
  }

  lemma AcceptedIsObserved(owner: Site, public: Key, legacy: bool, v: RoundView, now: int, live: Receipt -> bool)
    requires Canonical(v.committed) && SwitchAccepted(owner, public, legacy, v, now, live)
    ensures owner.node in Observation(v, now, live).observed
  {
    AcceptedMeansSwitched(owner, public, legacy, v, now, live);
    ObservedIffSwitched(v, owner.node, now, live);
  }

  /** Planning hands the check exactly the sites of the selected generation. */
  lemma ChecksSelectedGeneration(intent: Intent, machine: Machine, target: Machine, targetView: RoundView,
                                 catalog: map<Generation, Transport>)
    requires Planned(intent, machine, catalog) && ViewAgrees(intent, machine, target, targetView)
    ensures CheckedSites(intent, machine, target, targetView) ==
            Some(catalog[Selected(Outline(intent.views[machine], {}))].sites)
  {
    SelectsCatalogued(intent.plans[machine], catalog, intent.views[machine]);
  }

  /**
   A node that passes the dependency check is admissible in the graph of the generation that the
   journal selects, for every worker whose routes it is about to apply: the receipt counting
   implements the protocol's guard.
   */
  lemma CheckedMemberIsAdmissible(intent: Intent, machine: Machine, node: Node, target: Machine, targetView: RoundView,
                                  now: int, live: Receipt -> bool, catalog: map<Generation, Transport>,
                                  graphs: map<Generation, map<Node, RelayProtocol.Path>>)
    requires CanonicalViews(intent) && Planned(intent, machine, catalog)
    requires Graphs(intent.plans[machine], catalog, graphs)
    requires node in graphs[Selected(Outline(intent.views[machine], {}))]
    requires MachineChecked(intent, machine, node, target, targetView, now, live)
    ensures var v := intent.views[machine];
            RelayProtocol.Admissible(Observation(v, now, live), graphs[Selected(Outline(v, {}))], node)
  {
    var v, legacy := intent.views[machine], machine in intent.legacy;
    var graph := graphs[Selected(Outline(v, {}))];
    SelectsCatalogued(intent.plans[machine], catalog, v);
    var sites := catalog[Selected(Outline(v, {}))].sites;
    assert CheckedSites(intent, machine, target, targetView).value == sites;
    var key :| key in sites && sites[key].node == node;
    assert SiteChecked(intent, machine, sites, key, node, target, targetView, now, live);
    var path := PathOf(sites[key], legacy);
    if Unfinished(v) && path.Some? && path.value.transit {
      AcceptedIsObserved(sites[path.value.peer], path.value.peer, legacy, v, now, live);
      assert graph[sites[path.value.peer].node] == RelayProtocol.Direct;
    }
  }

  /** Plan validation: a path that is not relayed belongs to the site's own key. */
  ghost predicate OwnPaths(t: Transport) {
    forall key | key in t.sites ::
      var path := if t.root then t.sites[key].legacy else t.sites[key].forward;
      path.Some? && !path.value.transit ==> path.value.peer == key
  }

  /** A view the journal can produce, seen while an unfinished Switch may still be executed. */
  ghost predicate Executable(v: RoundView, now: int) {
    && Canonical(v.committed) && OnePerDevice(v.observed)
    && (Unfinished(v) ==> v.committed.issuedAt <= now < v.committed.expiresAt)
  }

  /**
   The dependency check is exact. With the committed evidence unchanged and the direction of the
   round agreeing with the selected transport, a node passes for a worker if and only if the
   protocol admits it in the selected generation.
   */
  lemma CheckedIffAdmissible(intent: Intent, machine: Machine, node: Node, target: Machine, targetView: RoundView,
                             now: int, live: Receipt -> bool, catalog: map<Generation, Transport>,
                             graphs: map<Generation, map<Node, RelayProtocol.Path>>)
    requires CanonicalViews(intent) && Planned(intent, machine, catalog)
    requires Graphs(intent.plans[machine], catalog, graphs)
    requires (machine == target ==> intent.views[machine] == targetView) && Executable(intent.views[machine], now)
    requires intent.plans[machine].previous.None? && Unfinished(intent.views[machine]) ==>
               (machine in intent.legacy <==> intent.views[machine].rollbackRequested)
    requires var g := Selected(Outline(intent.views[machine], {})); OwnPaths(catalog[g]) && node in graphs[g]
    ensures var v := intent.views[machine];
            MachineChecked(intent, machine, node, target, targetView, now, live) <==>
            RelayProtocol.Admissible(Observation(v, now, live), graphs[Selected(Outline(v, {}))], node)
  {
    var v := intent.views[machine];
    var g := Selected(Outline(v, {}));
    if MachineChecked(intent, machine, node, target, targetView, now, live) {
      CheckedMemberIsAdmissible(intent, machine, node, target, targetView, now, live, catalog, graphs);
    }
    if RelayProtocol.Admissible(Observation(v, now, live), graphs[g], node) {
      ChecksSelectedGeneration(intent, machine, target, targetView, catalog);
      forall key | key in catalog[g].sites
        ensures SiteChecked(intent, machine, catalog[g].sites, key, node, target, targetView, now, live)
      {
        AdmissibleIsChecked(intent, machine, key, node, target, targetView, now, live, catalog[g], graphs[g]);
      }
    }
  }

  lemma AdmissibleIsChecked(intent: Intent, machine: Machine, key: Key, node: Node, target: Machine,
                            targetView: RoundView, now: int, live: Receipt -> bool, t: Transport,
                            graph: map<Node, RelayProtocol.Path>)
    requires machine in intent.plans && ViewAgrees(intent, machine, target, targetView)
    requires Executable(intent.views[machine], now)
    requires machine in intent.legacy <==> t.root
    requires intent.plans[machine].previous.None? && Unfinished(intent.views[machine]) ==>
               (machine in intent.legacy <==> intent.views[machine].rollbackRequested)
    requires key in t.sites && GraphOf(t, graph) && OwnPaths(t) && node in graph
    requires RelayProtocol.Admissible(Observation(intent.views[machine], now, live), graph, node)
    ensures SiteChecked(intent, machine, t.sites, key, node, target, targetView, now, live)
  {
    var v := intent.views[machine];
    var path := PathOf(t.sites[key], t.root);
    if t.sites[key].node == node && path.Some? && path.value.transit && Unfinished(v) {
      assert graph[node] == Vertex(t.sites, t.root, t.sites[key]);
      var peer := path.value.peer;
      assert peer in t.sites;
      ObservedIffSwitched(v, t.sites[peer].node, now, live);
      assert graph[t.sites[peer].node] == Vertex(t.sites, t.root, t.sites[peer]);
      AcceptedIffSwitched(t.sites[peer], peer, t.root, v, now, live);
    }
  }

  // ----- Followers -----

  /** A planned follower path: the relay key, whether it is relayed, and whether it claims a tunnel. */
  datatype FollowerPath = FollowerPath(path: SitePath, tunnel: bool)

  function AdmitFollower(fenced: bool, node: Node, name: string, plan: Plan, published: bool, v: RoundView, now: int,
                         planned: Option<FollowerPath>, live: Receipt -> bool): (r: Option<FollowerPath>)
    ensures r.Some? ==> r == planned && !fenced && published && r.value.path.transit && !r.value.tunnel
    ensures r.Some? ==>
              node != plan.cloudNode && forall key | key in plan.sites ::
              plan.sites[key].node != node && plan.sites[key].name != name
  {
    if fenced || node == "" || name == "" || !published then None
    else if plan.cloudName == name || plan.cloudNode == node then None
    else if exists key :: key in plan.sites && (plan.sites[key].name == name || plan.sites[key].node == node) then None
    else if !v.complete && (now < v.committed.issuedAt || v.committed.expiresAt <= now) then None
    else if planned.None? || SelectedTransport(plan, v).None? then None
    else
      var (sites, root) := SelectedTransport(plan, v).value;
      var path := planned.value.path;
      if path.peer !in sites || sites[path.peer].node == "" || sites[path.peer].name == "" then None
      else if sites[path.peer].node == node || sites[path.peer].name == name || !path.transit ||
        planned.value.tunnel then None
      else if Unfinished(v) && !SwitchAccepted(sites[path.peer], path.peer, root, v, now, live) then None
      else planned
  }

  /** A named node that takes no part in the worker's plan, neither as its receiver nor as a site. */
  ghost predicate Outsider(plan: Plan, node: Node, name: string) {
    && node != "" && name != "" && node != plan.cloudNode && name != plan.cloudName
    && forall key | key in plan.sites :: plan.sites[key].node != node && plan.sites[key].name != name
  }

  /** The planned path is relayed, without a tunnel, through another named site of the transport. */
  ghost predicate RelayedThrough(t: Transport, planned: FollowerPath, node: Node, name: string) {
    && planned.path.transit && !planned.tunnel && planned.path.peer in t.sites
    && var relay := t.sites[planned.path.peer];
       relay.node != "" && relay.name != "" && relay.node != node && relay.name != name
  }

  /** The protocol's graph with the follower hung off its planned relay. */
  ghost function Joined(graph: map<Node, RelayProtocol.Path>, t: Transport, planned: FollowerPath, node: Node)
    : map<Node, RelayProtocol.Path>
    requires planned.path.peer in t.sites
  {
    graph[node := RelayProtocol.Via(t.sites[planned.path.peer].node)]
  }

  /** The admission, with the relay's switch still as the receipt check sees it. */
  lemma ScreenedIff(fenced: bool, node: Node, name: string, plan: Plan, published: bool, v: RoundView, now: int,
                    planned: Option<FollowerPath>, live: Receipt -> bool)
    ensures AdmitFollower(fenced, node, name, plan, published, v, now, planned, live).Some? <==>
            && !fenced && published && (v.complete || v.committed.issuedAt <= now < v.committed.expiresAt)
            && Outsider(plan, node, name) && planned.Some? && SelectedTransport(plan, v).Some?
            && var (sites, root) := SelectedTransport(plan, v).value;
               var peer := planned.value.path.peer;
               && RelayedThrough(Transport(sites, root), planned.value, node, name)
               && (Unfinished(v) ==> SwitchAccepted(sites[peer], peer, root, v, now, live))
  {
  }

  /**
   Followers obey the same order, and nothing more is asked of them. An outsider of a published,
   unfenced worker is admitted if and only if the round is complete or current, its planned path
   is relayed through another site of the selected generation, and the protocol admits it there.
   */
  lemma FollowerAdmittedIff(fenced: bool, node: Node, name: string, plan: Plan, published: bool, v: RoundView,
                            now: int, planned: Option<FollowerPath>, live: Receipt -> bool,
                            catalog: map<Generation, Transport>,
                            graphs: map<Generation, map<Node, RelayProtocol.Path>>)
    requires Canonical(v.committed) && OnePerDevice(v.observed) && Graphs(plan, catalog, graphs)
    requires forall g | g in catalog :: OwnPaths(catalog[g])
    ensures var g := Selected(Outline(v, {}));
            AdmitFollower(fenced, node, name, plan, published, v, now, planned, live).Some? <==>
            && !fenced && published && (v.complete || v.committed.issuedAt <= now < v.committed.expiresAt)
            && Outsider(plan, node, name) && planned.Some? && g in catalog
            && RelayedThrough(catalog[g], planned.value, node, name)
            && RelayProtocol.Admissible(Observation(v, now, live),
                                        Joined(graphs[g], catalog[g], planned.value, node), node)
  {
    var g := Selected(Outline(v, {}));
    SelectsCatalogued(plan, catalog, v);
    ScreenedIff(fenced, node, name, plan, published, v, now, planned, live);
    if g in catalog && planned.Some? && RelayedThrough(catalog[g], planned.value, node, name) {
      if v.complete || v.committed.issuedAt <= now < v.committed.expiresAt {
        RelayAcceptedIff(v, now, live, catalog[g], graphs[g], planned.value, node, name);
      }
    }
  }

  lemma RelayAcceptedIff(v: RoundView, now: int, live: Receipt -> bool, t: Transport,
                         graph: map<Node, RelayProtocol.Path>, planned: FollowerPath, node: Node, name: string)
    requires Executable(v, now) && GraphOf(t, graph) && OwnPaths(t) && RelayedThrough(t, planned, node, name)
    ensures var peer := planned.path.peer;
            RelayProtocol.Admissible(Observation(v, now, live), Joined(graph, t, planned, node), node) <==>
            (Unfinished(v) ==> SwitchAccepted(t.sites[peer], peer, t.root, v, now, live))
  {
    var peer := planned.path.peer;
    assert graph[t.sites[peer].node] == Vertex(t.sites, t.root, t.sites[peer]);
    ObservedIffSwitched(v, t.sites[peer].node, now, live);
    if Unfinished(v) {
      AcceptedIffSwitched(t.sites[peer], peer, t.root, v, now, live);
    }
  }

  /** Whatever the round's age, an admitted follower hangs off an observed, direct relay. */
  lemma AdmittedFollowerIsAdmissible(fenced: bool, node: Node, name: string, plan: Plan, published: bool, v: RoundView,
                                     now: int, planned: Option<FollowerPath>, live: Receipt -> bool,
                                     catalog: map<Generation, Transport>,
                                     graphs: map<Generation, map<Node, RelayProtocol.Path>>)
    requires Canonical(v.committed) && Graphs(plan, catalog, graphs)
    requires AdmitFollower(fenced, node, name, plan, published, v, now, planned, live).Some?
    ensures var g := Selected(Outline(v, {}));
            && g in catalog && RelayedThrough(catalog[g], planned.value, node, name)
            && RelayProtocol.Admissible(Observation(v, now, live),
                                        Joined(graphs[g], catalog[g], planned.value, node), node)
  {
    SelectsCatalogued(plan, catalog, v);
    var t := catalog[Selected(Outline(v, {}))];
    var peer := planned.value.path.peer;
    if Unfinished(v) {
      AcceptedIsObserved(t.sites[peer], peer, t.root, v, now, live);
      assert Vertex(t.sites, t.root, t.sites[peer]) == RelayProtocol.Direct;
    }
  }
}
