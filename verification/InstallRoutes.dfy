/**
 Installing the agent's routes in its own table and moving older ones out of the main table.

 Nothing changes unless every destination is allowed; wanted routes are replaced, never removed
 first; and only routes in scope that nobody wants or claims are pruned.
 */
module InstallRoutes {
  import opened Options
  import opened Prefixes
  import RouteReadback

  type Scope = Option<set<Prefix>>

  /** A route, and whether the kernel itself owns it. */
  datatype Entry = Entry(kernel: bool, via: string)

  /** What the node must keep reaching in its own way. */
  datatype Protected = Protected(reserved: set<Prefix>, local: set<Address>, gateways: set<Address>,
                                 management: set<Prefix>)

  /** The relay's address per family, where it publishes one. */
  type Relay = Option<map<Family, string>>

  datatype Request = Request(scope: Scope, hosts: seq<Prefix>, claimed: seq<Prefix>, blocks: seq<Prefix>,
                             relay: Relay, relayed: seq<Prefix>, link: bool, receivers: map<Prefix, string>,
                             device: string)

  datatype State = State(table: map<Prefix, Entry>, inMain: map<Prefix, bool>)

  // ----- Admission -----

  predicate AllowedDestination(d: Prefix, p: Protected) {
    && (forall r | r in p.reserved :: !Overlaps(d, r))
    && (forall a | a in p.local :: !Matches(d, a))
    && (forall a | a in p.gateways :: !Matches(d, a))
    && (forall m | m in p.management :: !Overlaps(d, m))
  }

  predicate Owned(scope: Scope, d: Prefix) {
    scope.None? || d in scope.value
  }

  predicate ScopeAllows(r: Request) {
    r.scope.Some? ==>
      && r.scope.value != {} && r.claimed == [] && r.relay.None? && r.relayed == []
      && (forall p | p in r.scope.value :: p.bits != [])
      && (forall d | d in r.hosts + r.blocks :: d in r.scope.value)
  }

  /** Without a tunnel device every destination needs a prepared receiver. */
  predicate DeviceAllows(r: Request) {
    || r.link
    || (&& r.receivers != map[] && r.claimed == [] && r.relay.None? && r.relayed == []
        && forall d | d in r.hosts + r.blocks :: d in r.receivers)
  }

  /** A receiver may only be selected for an explicit destination. */
  predicate ReceiversAllowed(r: Request) {
    forall d | d in r.receivers :: d in r.hosts + r.blocks && d.bits != []
  }

  predicate Admitted(r: Request, p: Protected) {
    && ScopeAllows(r) && ReceiversAllowed(r) && DeviceAllows(r)
    && forall d | d in r.hosts + r.blocks + r.relayed :: AllowedDestination(d, p)
  }

  /** No address of the destination is the node's own, a gateway's, reserved or used for management. */
  ghost predicate Harmless(d: Prefix, p: Protected) {
    forall a | Matches(d, a) ::
      && a !in p.local && a !in p.gateways
      && (forall r | r in p.reserved :: !Matches(r, a)) && (forall m | m in p.management :: !Matches(m, a))
  }

  lemma AllowedIffHarmless(d: Prefix, p: Protected)
    ensures AllowedDestination(d, p) <==> Harmless(d, p)
  {
    forall r | r in p.reserved + p.management
      ensures Overlaps(d, r) <==> exists a :: Matches(d, a) && Matches(r, a)
    {
      OverlapIffCommonAddress(d, r);
    }
    if Harmless(d, p) {
      assert forall r | r in p.reserved + p.management :: !Overlaps(d, r);
    }
  }

  /** The destinations a request lists for direct delivery. */
  ghost function Listed(r: Request): set<Prefix> {
    (set d | d in r.hosts) + (set d | d in r.blocks)
  }

  /** The request claims no foreign route and relays nothing. */
  predicate DirectOnly(r: Request) {
    r.claimed == [] && r.relay.None? && r.relayed == []
  }

  /**
   A request is admitted exactly when nothing it would route is protected; a scoped one stays
   inside a scope that is neither empty nor everything; receivers serve listed destinations, not
   all traffic; and without a tunnel device every destination has one.
   */
  lemma AdmittedIff(r: Request, p: Protected)
    ensures Admitted(r, p) <==>
            && (forall d | d in Listed(r) || d in r.relayed :: Harmless(d, p))
            && (r.scope.Some? ==>
                  r.scope.value != {} && Listed(r) <= r.scope.value && DirectOnly(r)
                  && forall d | d in r.scope.value :: |d.bits| > 0)
            && (forall d | d in r.receivers :: d in Listed(r) && |d.bits| > 0)
            && (!r.link ==> r.receivers.Keys == Listed(r) != {} && DirectOnly(r))
  {
    forall d | d in r.hosts + r.blocks + r.relayed
      ensures AllowedDestination(d, p) <==> Harmless(d, p)
    {
      AllowedIffHarmless(d, p);
    }
    assert forall d :: d in Listed(r) <==> d in r.hosts + r.blocks;
    assert r.receivers.Keys == Listed(r) != {} ==> r.receivers != map[];
    if !r.link && Admitted(r, p) {
      assert r.receivers.Keys == Listed(r);
    }
  }

  // ----- What is wanted -----

  function DirectEntry(r: Request, d: Prefix): Entry {
    Entry(false, if d in r.receivers then r.receivers[d] else r.device)
  }

  function Direct(r: Request, destinations: seq<Prefix>): map<Prefix, Entry> {
    map d | d in destinations :: DirectEntry(r, d)
  }

  function ViaRelay(r: Request, destinations: seq<Prefix>): map<Prefix, Entry> {
    if r.relay.None? then map[]
    else map d | d in destinations && d.family in r.relay.value :: Entry(false, r.relay.value[d.family])
  }

  /** Later lists win where they repeat a destination. */
  function Wanted(r: Request): map<Prefix, Entry> {
    Direct(r, r.hosts) + Direct(r, r.blocks) + ViaRelay(r, r.relayed)
  }

  /** The table a completed pass leaves. */
  predicate Pruned(r: Request, before: map<Prefix, Entry>, d: Prefix)
    requires d in before
  {
    !before[d].kernel && Owned(r.scope, d) && d !in Wanted(r) && d !in r.claimed
  }

  function Target(r: Request, before: map<Prefix, Entry>): map<Prefix, Entry> {
    (map d | d in before && !Pruned(r, before, d) :: before[d]) + Wanted(r)
  }

  // ----- The final readback -----

  /** The destinations the readback looks for: the receivers', and in a scoped pass all of them. */
  function Selected(r: Request): set<Prefix> {
    r.receivers.Keys + if r.scope.Some? then (set d | d in r.hosts + r.blocks) else {}
  }

  /** A route the readback refuses unless it is selected: in the scope, or more specific than a selected one. */
  predicate InTheWay(r: Request, d: Prefix) {
    (r.scope.Some? && d in r.scope.value) || exists p :: p in Selected(r) && p != d && Covers(p, d)
  }

  predicate Clean(r: Request, table: map<Prefix, Entry>) {
    && (forall p | p in Selected(r) :: p in table && table[p].via == DirectEntry(r, p).via)
    && (forall d | d in table && d !in Selected(r) :: !InTheWay(r, d))
  }

  /**
   No route that a pass keeps or adds is in the way, and no selected destination is also relayed
   another way.
   */
  predicate NothingInTheWay(r: Request, before: map<Prefix, Entry>) {
    && (forall p | p in Selected(r) && p in ViaRelay(r, r.relayed) :: ViaRelay(r, r.relayed)[p] == DirectEntry(r, p))
    && (forall d | d in Wanted(r) && d !in Selected(r) :: !InTheWay(r, d))
    && (forall d | d in before && d !in Wanted(r) && !Pruned(r, before, d) :: !InTheWay(r, d))
  }

  lemma SelectedIsWanted(r: Request, p: Prefix)
    requires ReceiversAllowed(r) && p in Selected(r)
    ensures p in Wanted(r)
    ensures Wanted(r)[p] == if p in ViaRelay(r, r.relayed) then ViaRelay(r, r.relayed)[p] else DirectEntry(r, p)
  {
    assert p in r.hosts + r.blocks;
  }

  /** The readback accepts what a pass leaves exactly when nothing it keeps or adds is in the way. */
  lemma CleanIff(r: Request, before: map<Prefix, Entry>)
    requires ReceiversAllowed(r)
    ensures Clean(r, Target(r, before)) <==> NothingInTheWay(r, before)
  {
    var table := Target(r, before);
    forall p | p in Selected(r)
      ensures p in Wanted(r) && p in table && table[p] == Wanted(r)[p]
      ensures table[p].via == DirectEntry(r, p).via <==>
                (p in ViaRelay(r, r.relayed) ==> ViaRelay(r, r.relayed)[p] == DirectEntry(r, p))
    {
      SelectedIsWanted(r, p);
    }
    assert forall d :: d in table <==> d in Wanted(r) || (d in before && !Pruned(r, before, d));
  }

  /** How the kernel lists a route of each destination; links and gateways tell the entries apart. */
  ghost predicate Renders(render: (Prefix, Entry) -> RouteReadback.Route,
                          source: Prefix -> Option<RouteReadback.Host>) {
    && (forall d, e :: var route := render(d, e);
          && route.dst == Some(d) && route.unicast && route.plain
          && route.priority == RouteReadback.Priority(d) && route.source == source(d))
    && (forall d, a: Entry, b: Entry {:trigger render(d, a), render(d, b)} ::
          a.via == b.via <==> render(d, a).link == render(d, b).link && render(d, a).gateway == render(d, b).gateway)
  }

  /** `routes` lists the table, each destination once. */
  ghost predicate Lists(routes: seq<RouteReadback.Route>, table: map<Prefix, Entry>,
                        render: (Prefix, Entry) -> RouteReadback.Route) {
    && (forall d | d in table :: RouteReadback.Exact(routes, d) == 1)
    && (forall i | 0 <= i < |routes| && routes[i].dst.Some? ::
          routes[i].dst.value in table && routes[i] == render(routes[i].dst.value, table[routes[i].dst.value]))
  }

  function SelectionOf(r: Request, render: (Prefix, Entry) -> RouteReadback.Route): RouteReadback.Selection {
    RouteReadback.Selection(
      map p | p in Selected(r) :: render(p, DirectEntry(r, p)).link,
      map p | p in Selected(r) && render(p, DirectEntry(r, p)).gateway.Some? ::
        render(p, DirectEntry(r, p)).gateway.value)
  }

  lemma ListedOnce(routes: seq<RouteReadback.Route>, table: map<Prefix, Entry>,
                   render: (Prefix, Entry) -> RouteReadback.Route, d: Prefix) returns (i: nat)
    requires Lists(routes, table, render) && d in table
    ensures i < |routes| && routes[i] == render(d, table[d]) && routes[i].dst == Some(d)
  {
    RouteReadback.ExactIsUnique(routes, d);
    i :| 0 <= i < |routes| && routes[i].dst == Some(d);
  }

  /** One selected destination as the readback wants it. */
  predicate SelectedClean(r: Request, table: map<Prefix, Entry>, p: Prefix) {
    && p in table && table[p].via == DirectEntry(r, p).via
    && forall d | d in table && d != p && Covers(p, d) :: d in Selected(r)
  }

  predicate ScopeClean(r: Request, table: map<Prefix, Entry>) {
    r.scope.Some? ==> forall d | d in table && d in r.scope.value :: d in Selected(r)
  }

  lemma CleanByParts(r: Request, table: map<Prefix, Entry>)
    ensures Clean(r, table) <==> ScopeClean(r, table) && forall p | p in Selected(r) :: SelectedClean(r, table, p)
  {
  }

  lemma ShadowFreeIff(routes: seq<RouteReadback.Route>, r: Request, table: map<Prefix, Entry>,
                      render: (Prefix, Entry) -> RouteReadback.Route, p: Prefix)
    requires Lists(routes, table, render)
    ensures RouteReadback.ShadowFree(routes, SelectionOf(r, render), p) <==>
              forall d | d in table && d != p && Covers(p, d) :: d in Selected(r)
  {
    if RouteReadback.ShadowFree(routes, SelectionOf(r, render), p) {
      forall d | d in table && d != p && Covers(p, d)
        ensures d in Selected(r)
      {
        var i := ListedOnce(routes, table, render, d);
      }
    }
  }

  lemma SelectedVerifiedIff(routes: seq<RouteReadback.Route>, r: Request, table: map<Prefix, Entry>,
                            render: (Prefix, Entry) -> RouteReadback.Route,
                            source: Prefix -> Option<RouteReadback.Host>, p: Prefix)
    requires Lists(routes, table, render) && Renders(render, source) && p in Selected(r)
    ensures RouteReadback.DestinationVerified(routes, SelectionOf(r, render), p, source) <==> SelectedClean(r, table, p)
  {
    ShadowFreeIff(routes, r, table, render, p);
    if p in table {
      var i := ListedOnce(routes, table, render, p);
      assert RouteReadback.Faithful(routes[i], SelectionOf(r, render), p, source) <==>
        table[p].via == DirectEntry(r, p).via;
    } else {
      NotListed(routes, p);
    }
  }

  lemma ScopeCleanIff(routes: seq<RouteReadback.Route>, r: Request, table: map<Prefix, Entry>,
                      render: (Prefix, Entry) -> RouteReadback.Route)
    requires Lists(routes, table, render)
    ensures ScopeClean(r, table) <==>
            forall i | 0 <= i < |routes| && routes[i].dst.Some? && routes[i].dst.value in ScopeSet(r) ::
              routes[i].dst.value in SelectionOf(r, render).links
  {
    forall d | d in table
      ensures exists i :: 0 <= i < |routes| && routes[i].dst == Some(d)
    {
      var i := ListedOnce(routes, table, render, d);
    }
  }

  function ScopeSet(r: Request): set<Prefix> {
    if r.scope.Some? then r.scope.value else {}
  }

  lemma {:induction false} NotListed(routes: seq<RouteReadback.Route>, p: Prefix)
    requires forall i | 0 <= i < |routes| && routes[i].dst.Some? :: routes[i].dst.value != p
    ensures RouteReadback.Exact(routes, p) == 0
  {
    if routes != [] {
      NotListed(routes[..|routes| - 1], p);
    }
  }

  /** On any listing of the table the address-level readback gives the same verdict. */
  lemma CleanIsVerified(routes: seq<RouteReadback.Route>, r: Request, table: map<Prefix, Entry>,
                        render: (Prefix, Entry) -> RouteReadback.Route, source: Prefix -> Option<RouteReadback.Host>)
    requires Lists(routes, table, render) && Renders(render, source)
    ensures RouteReadback.Verified(routes, SelectionOf(r, render), ScopeSet(r), source) <==> Clean(r, table)
  {
    CleanByParts(r, table);
    ScopeCleanIff(routes, r, table, render);
    forall p | p in Selected(r)
      ensures RouteReadback.DestinationVerified(routes, SelectionOf(r, render), p, source) <==>
                SelectedClean(r, table, p)
    {
      SelectedVerifiedIff(routes, r, table, render, source, p);
    }
  }

  /** Every listing of what a pass leaves is read back successfully exactly when nothing was in the way. */
  lemma ReadbackAfterInstallIff(routes: seq<RouteReadback.Route>, r: Request, before: map<Prefix, Entry>,
                                render: (Prefix, Entry) -> RouteReadback.Route,
                                source: Prefix -> Option<RouteReadback.Host>)
    requires ReceiversAllowed(r) && Lists(routes, Target(r, before), render) && Renders(render, source)
    ensures RouteReadback.Verified(routes, SelectionOf(r, render), ScopeSet(r), source) <==> NothingInTheWay(r, before)
  {
    CleanIsVerified(routes, r, Target(r, before), render, source);
    CleanIff(r, before);
  }

  /** An admitted request that installs everything and is then refused: a route outside its scope is more specific. */
  lemma KeptRouteCanBeInTheWay() returns (r: Request, p: Protected, before: map<Prefix, Entry>)
    ensures Admitted(r, p) && !NothingInTheWay(r, before)
  {
    var wide, narrow := Prefix(V4, [true]), Prefix(V4, [true, false]);
    r := Request(Some({wide}), [wide], [], [], None, [], true, map[], "tunnel");
    p := Protected({}, {}, {}, {});
    before := map[narrow := Entry(false, "other")];
    assert wide in r.hosts + r.blocks && wide in Selected(r) && Covers(wide, narrow) && wide != narrow;
    assert narrow !in Wanted(r) && !Pruned(r, before, narrow) && InTheWay(r, narrow);
    assert narrow in before;
  }

  // ----- States in between -----

  /** Routes outside the scope are untouched and no wanted destination has lost its route. */
  ghost predicate Safe(s: State, start: State, r: Request) {
    && (forall d | !Owned(r.scope, d) :: SameEntry(s.table, start.table, d) && (d in s.inMain <==> d in start.inMain))
    && (forall d | d in start.table && (d in Wanted(r) || d in r.claimed || start.table[d].kernel) :: d in s.table)
  }

  predicate SameEntry(a: map<Prefix, Entry>, b: map<Prefix, Entry>, d: Prefix) {
    (d in a <==> d in b) && (d in a ==> a[d] == b[d])
  }

  ghost predicate AllSafe(states: seq<State>, start: State, r: Request) {
    forall i | 0 <= i < |states| :: Safe(states[i], start, r)
  }

  lemma ListsAreOwned(r: Request)
    requires ScopeAllows(r)
    ensures forall d | d in r.hosts || d in r.blocks :: Owned(r.scope, d)
    ensures forall d | d in ViaRelay(r, r.relayed) :: Owned(r.scope, d)
  {
    forall d | d in r.hosts || d in r.blocks ensures Owned(r.scope, d) {
      assert d in r.hosts + r.blocks;
    }
  }

  lemma MergeAssociates(m: map<Prefix, Entry>, a: map<Prefix, Entry>, b: map<Prefix, Entry>, c: map<Prefix, Entry>)
    ensures m + a + b + c == m + (a + b + c)
  {
  }

  /** What has been pruned so far: everything stale but `todo`. */
  ghost predicate PrunedTo(table: map<Prefix, Entry>, start: map<Prefix, Entry>, r: Request, todo: set<Prefix>) {
    && (forall d | d in todo :: d in start && Pruned(r, start, d) && d in table)
    && (forall d :: d in table <==> d in Wanted(r) || (d in start && (d in todo || !Pruned(r, start, d))))
    && (forall d | d in table :: table[d] == if d in Wanted(r) then Wanted(r)[d] else start[d])
  }

  lemma PruneStep(table: map<Prefix, Entry>, start: map<Prefix, Entry>, r: Request, todo: set<Prefix>, d: Prefix)
    requires PrunedTo(table, start, r, todo) && d in todo
    ensures PrunedTo(table - {d}, start, r, todo - {d})
    ensures Owned(r.scope, d) && d !in Wanted(r) && d !in r.claimed && d in start && !start[d].kernel
  {
  }

  lemma PruneDone(table: map<Prefix, Entry>, start: map<Prefix, Entry>, r: Request)
    requires PrunedTo(table, start, r, {})
    ensures table == Target(r, start)
  {
  }

  lemma PruneStart(start: map<Prefix, Entry>, r: Request, todo: set<Prefix>)
    requires var table := start + Wanted(r);
             todo == set d | d in table && !table[d].kernel && Owned(r.scope, d) && d !in Wanted(r) && d !in r.claimed
    ensures PrunedTo(start + Wanted(r), start, r, todo)
  {
  }

  class Tables {
    var table: map<Prefix, Entry>
    /** Main-table routes on the tunnel device; true for those an older agent wrote. */
    var inMain: map<Prefix, bool>
    /** Every state so far, the present one last. */
    ghost var trace: seq<State>
    /** How many kernel calls have failed. */
    ghost var faults: nat

    ghost function Now(): State
      reads this
    {
      State(table, inMain)
    }

    ghost predicate Valid()
      reads this
    {
      trace != [] && trace[|trace| - 1] == Now()
    }

    ghost predicate Kept(n: nat, start: State, r: Request)
      reads this
    {
      Valid() && n <= |trace| && AllSafe(trace[n..], start, r) && Safe(Now(), start, r)
    }

    constructor (table: map<Prefix, Entry>, inMain: map<Prefix, bool>)
      ensures this.table == table && this.inMain == inMain && Valid()
    {
      this.table, this.inMain := table, inMain;
      faults := 0;
      trace := [State(table, inMain)];
    }

    method Replace(d: Prefix, e: Entry, ghost n: nat, ghost start: State, ghost r: Request) returns (ok: bool)
      requires Kept(n, start, r) && Owned(r.scope, d)
      modifies this`table, this`trace, this`faults
      ensures Kept(n, start, r) && old(trace) <= trace && (if ok then faults == old(faults) else faults > old(faults))
      ensures table == if ok then old(table)[d := e] else old(table)
    {
      ok := *;
      if ok {
        table := table[d := e];
        trace := trace + [Now()];
      } else {
        faults := faults + 1;
      }
    }

    method Delete(d: Prefix, ghost n: nat, ghost start: State, ghost r: Request) returns (ok: bool)
      requires Kept(n, start, r) && Owned(r.scope, d) && d !in Wanted(r) && d !in r.claimed
      requires (d in start.table ==> !start.table[d].kernel)
      modifies this`table, this`trace, this`faults
      ensures Kept(n, start, r) && old(trace) <= trace && (if ok then faults == old(faults) else faults > old(faults))
      ensures table == if ok then old(table) - {d} else old(table)
    {
      ok := *;
      if ok {
        table := table - {d};
        trace := trace + [Now()];
      } else {
        faults := faults + 1;
      }
    }

    method DeleteFromMain(d: Prefix, ghost n: nat, ghost start: State, ghost r: Request) returns (ok: bool)
      requires Kept(n, start, r) && Owned(r.scope, d)
      modifies this`inMain, this`trace, this`faults
      ensures Kept(n, start, r) && old(trace) <= trace && (if ok then faults == old(faults) else faults > old(faults))
      ensures inMain == if ok then old(inMain) - {d} else old(inMain)
    {
      ok := *;
      if ok {
        inMain := inMain - {d};
        trace := trace + [Now()];
      } else {
        faults := faults + 1;
      }
    }

    /** Replaces the route of each destination of one list. */
    method ReplaceList(destinations: seq<Prefix>, entries: map<Prefix, Entry>, ghost n: nat, ghost start: State,
                       ghost r: Request) returns (ok: bool)
      requires Kept(n, start, r) && forall d | d in entries :: Owned(r.scope, d) && d in destinations
      modifies this`table, this`trace, this`faults
      ensures Kept(n, start, r) && old(trace) <= trace && (if ok then faults == old(faults) else faults > old(faults))
      ensures ok ==> table == old(table) + entries
    {
      ghost var done: map<Prefix, Entry> := map[];
      for k := 0 to |destinations|
        invariant Kept(n, start, r) && faults == old(faults) && old(trace) <= trace && table == old(table) + done
        invariant forall d | d in done :: d in entries && done[d] == entries[d]
        invariant forall i | 0 <= i < k && destinations[i] in entries :: destinations[i] in done
      {
        var d := destinations[k];
        if d !in entries {
          continue;
        }
        ok := Replace(d, entries[d], n, start, r);
        if !ok {
          return;
        }
        done := done[d := entries[d]];
      }
      assert done == entries;
      ok := true;
    }

    /** Removes what is in scope and neither wanted nor claimed; the kernel's own routes stay. */
    method Prune(r: Request, ghost n: nat, ghost start: State) returns (ok: bool)
      requires Kept(n, start, r) && table == start.table + Wanted(r)
      modifies this`table, this`trace, this`faults
      ensures Kept(n, start, r) && old(trace) <= trace && (if ok then faults == old(faults) else faults > old(faults))
      ensures ok ==> table == Target(r, start.table)
    {
      var wanted := Wanted(r);
      var todo := set d | d in table && !table[d].kernel && Owned(r.scope, d) && d !in wanted && d !in r.claimed;
      PruneStart(start.table, r, todo);
      while todo != {}
        invariant Kept(n, start, r) && faults == old(faults) && old(trace) <= trace
        invariant PrunedTo(table, start.table, r, todo)
        decreases |todo|
      {
        var d :| d in todo;
        PruneStep(table, start.table, r, todo, d);
        ok := Delete(d, n, start, r);
        if !ok {
          return;
        }
        todo := todo - {d};
      }
      PruneDone(table, start.table, r);
      ok := true;
    }

    /** Moves what an older agent wrote out of the main table. */
    method Migrate(r: Request, ghost n: nat, ghost start: State) returns (ok: bool)
      requires Kept(n, start, r) && inMain == start.inMain
      modifies this`inMain, this`trace, this`faults
      ensures Kept(n, start, r) && old(trace) <= trace && (if ok then faults == old(faults) else faults > old(faults))
      ensures ok ==> forall d :: d in inMain <==> d in start.inMain && !(r.link && start.inMain[d] && Owned(r.scope, d))
    {
      if !r.link {
        return true;
      }
      var todo := set d | d in inMain && inMain[d] && Owned(r.scope, d);
      while todo != {}
        invariant Kept(n, start, r) && faults == old(faults) && old(trace) <= trace
        invariant forall d | d in todo :: d in start.inMain && start.inMain[d] && Owned(r.scope, d)
        invariant forall d :: d in inMain <==>
                    d in start.inMain && (d in todo || !(start.inMain[d] && Owned(r.scope, d)))
        decreases |todo|
      {
        var d :| d in todo;
        ok := DeleteFromMain(d, n, start, r);
        if !ok {
          return;
        }
        todo := todo - {d};
      }
      ok := true;
    }

    /**
     One installation pass. It refuses before any change, or may stop after any step; a completed
     pass leaves exactly the target table.
     */
    method Install(r: Request, p: Protected) returns (ok: bool)
      requires Valid()
      modifies this
      ensures Valid() && old(trace) <= trace
      ensures !Admitted(r, p) ==> !ok && Now() == old(Now()) && trace == old(trace)
      ensures AllSafe(trace[|old(trace)|..], old(Now()), r)
      ensures forall d | !Owned(r.scope, d) :: SameEntry(table, old(table), d)
      ensures ok ==> faults == old(faults) && NothingInTheWay(r, old(table))
      ensures Admitted(r, p) && faults == old(faults) ==>
                table == Target(r, old(table)) && (ok <==> NothingInTheWay(r, old(table)))
      ensures Admitted(r, p) && faults == old(faults) ==>
                forall d :: d in inMain <==> d in old(inMain) && !(r.link && old(inMain)[d] && Owned(r.scope, d))
    {
      ghost var start, n := Now(), |trace|;
      if !Admitted(r, p) {
        return false;
      }
      ok := InstallWanted(r, n, start);
      if !ok {
        return;
      }
      ok := Prune(r, n, start);
      if !ok {
        return;
      }
      ok := Migrate(r, n, start);
      if !ok {
        return;
      }
      CleanIff(r, start.table);
      ok := Clean(r, table);
    }

    method InstallWanted(r: Request, ghost n: nat, ghost start: State) returns (ok: bool)
      requires Kept(n, start, r) && ScopeAllows(r)
      modifies this`table, this`trace, this`faults
      ensures Kept(n, start, r) && old(trace) <= trace && (if ok then faults == old(faults) else faults > old(faults))
      ensures ok ==> table == old(table) + Wanted(r)
    {
      ListsAreOwned(r);
      ghost var before := table;
      MergeAssociates(before, Direct(r, r.hosts), Direct(r, r.blocks), ViaRelay(r, r.relayed));
      ok := ReplaceList(r.hosts, Direct(r, r.hosts), n, start, r);
      if !ok {
        return;
      }
      ok := ReplaceList(r.blocks, Direct(r, r.blocks), n, start, r);
      if !ok {
        return;
      }
      ok := ReplaceList(r.relayed, ViaRelay(r, r.relayed), n, start, r);
    }
  }

  // ----- What the target means -----

  /**
   In scope: the wanted destinations, claimed ones that already had a route, and the kernel's
   own. Outside: whatever was there.
   */
  ghost predicate Exactly(table: map<Prefix, Entry>, r: Request, before: map<Prefix, Entry>, d: Prefix) {
    if d in Wanted(r) then d in table && table[d] == Wanted(r)[d]
    else if !Owned(r.scope, d) || d in r.claimed || (d in before && before[d].kernel) then SameEntry(table, before, d)
    else d !in table
  }

  lemma SameEverywhere(a: map<Prefix, Entry>, b: map<Prefix, Entry>)
    requires forall d :: SameEntry(a, b, d)
    ensures a == b
  {
    assert forall d | d in a :: SameEntry(a, b, d);
    assert forall d | d in b :: SameEntry(a, b, d);
    assert a.Keys == b.Keys;
  }

  /** The target is the one table that is exact at every destination. */
  lemma TargetIsExact(table: map<Prefix, Entry>, r: Request, before: map<Prefix, Entry>)
    ensures table == Target(r, before) <==> forall d :: Exactly(table, r, before, d)
  {
    var target := Target(r, before);
    assert forall d :: Exactly(target, r, before, d);
    if forall d :: Exactly(table, r, before, d) {
      forall d
        ensures SameEntry(table, target, d)
      {
        assert Exactly(table, r, before, d) && Exactly(target, r, before, d);
      }
      SameEverywhere(table, target);
    }
  }

  /** A destination is asked for: listed, or relayed where the relay has an address of its family. */
  predicate AskedFor(r: Request, d: Prefix) {
    d in r.hosts || d in r.blocks || RelayedTo(r, d)
  }

  predicate RelayedTo(r: Request, d: Prefix) {
    d in r.relayed && r.relay.Some? && d.family in r.relay.value
  }

  /**
   Where a completed pass sends each destination: a relayed one through the relay, a listed one
   through its receiver or else through the tunnel device, and any other as before, unless it was
   in the pass's scope, not the kernel's and claimed by nobody.
   */
  lemma TargetMeans(r: Request, before: map<Prefix, Entry>, d: Prefix)
    ensures var table := Target(r, before);
            if AskedFor(r, d) then
              && d in table && !table[d].kernel
              && (RelayedTo(r, d) ==> table[d].via == r.relay.value[d.family])
              && (!RelayedTo(r, d) ==> table[d].via == if d in r.receivers then r.receivers[d] else r.device)
            else if d in before && (before[d].kernel || d in r.claimed || (r.scope.Some? && d !in r.scope.value)) then
              d in table && table[d] == before[d]
            else d !in table
  {
    assert d in Wanted(r) <==> AskedFor(r, d);
  }

  /** A pass repeated on its own result changes nothing. */
  lemma InstallIsIdempotent(r: Request, before: map<Prefix, Entry>)
    ensures Target(r, Target(r, before)) == Target(r, before)
  {
    var once := Target(r, before);
    forall d | d in once
      ensures !Pruned(r, once, d)
    {
      if d !in Wanted(r) {
        assert d in before && once[d] == before[d];
      }
    }
  }
}
