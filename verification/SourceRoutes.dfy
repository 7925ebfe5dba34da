/**
 Source exceptions: host routes in a companion table, reached by one selector rule per family.

 A scoped pass owns only the hosts inside its admitted destination prefixes. The results are
 what a completed reconcile or withdrawal leaves, and that in every state in between each host
 outside the scope is still routed as it was and still reached by its selector.
 */
module SourceRoutes {
  import opened Options
  import opened Prefixes

  type Device = int
  type Scope = Option<set<Prefix>>
  type Sources = map<Family, Address>

  /** A selector: packets from `src` use the companion table. */
  datatype Rule = Rule(family: Family, src: Address)

  datatype State = State(routes: map<Address, Device>, rules: seq<Rule>)

  predicate InScope(scope: set<Prefix>, host: Address) {
    exists p :: p in scope && Matches(p, host)
  }

  /** Without a scope every host is the caller's. */
  predicate Owned(scope: Scope, host: Address) {
    scope.None? || InScope(scope.value, host)
  }

  method FindScope(scope: set<Prefix>, host: Address) returns (found: bool)
    ensures found <==> InScope(scope, host)
  {
    var todo := scope;
    while todo != {}
      invariant todo <= scope && forall p | p in scope - todo :: !Matches(p, host)
      decreases |todo|
    {
      var p :| p in todo;
      if Matches(p, host) {
        return true;
      }
      todo := todo - {p};
    }
    return false;
  }

  // ----- Planning -----

  predicate OnePerFamily(addresses: seq<Address>) {
    forall i, j | 0 <= i < j < |addresses| :: addresses[i].family != addresses[j].family
  }

  function Allocated(addresses: seq<Address>): Sources {
    if addresses == [] then map[]
    else Allocated(addresses[..|addresses| - 1])[addresses[|addresses| - 1].family := addresses[|addresses| - 1]]
  }

  lemma {:induction false} AllocatedFamilies(addresses: seq<Address>, i: nat)
    requires i < |addresses|
    ensures addresses[i].family in Allocated(addresses)
    ensures OnePerFamily(addresses) ==> Allocated(addresses)[addresses[i].family] == addresses[i]
  {
    if i < |addresses| - 1 {
      assert addresses[..|addresses| - 1][i] == addresses[i];
      AllocatedFamilies(addresses[..|addresses| - 1], i);
    }
  }

  lemma {:induction false} AllocatedFrom(addresses: seq<Address>, f: Family)
    requires f in Allocated(addresses)
    ensures Allocated(addresses)[f].family == f && Allocated(addresses)[f] in addresses
  {
    var front, last := addresses[..|addresses| - 1], addresses[|addresses| - 1];
    if last.family != f {
      AllocatedFrom(front, f);
    }
  }

  /** Each family has exactly the address that was allocated to it. */
  lemma AllocatedIff(addresses: seq<Address>)
    requires OnePerFamily(addresses)
    ensures forall a :: a in addresses <==> a.family in Allocated(addresses) && Allocated(addresses)[a.family] == a
  {
    forall a
      ensures a in addresses <==> a.family in Allocated(addresses) && Allocated(addresses)[a.family] == a
    {
      if a in addresses {
        var i :| 0 <= i < |addresses| && addresses[i] == a;
        AllocatedFamilies(addresses, i);
      } else if a.family in Allocated(addresses) {
        AllocatedFrom(addresses, a.family);
      }
    }
  }

  method Allocations(addresses: seq<Address>) returns (sources: Option<Sources>)
    ensures sources.Some? <==> OnePerFamily(addresses)
    ensures sources.Some? ==> sources.value == Allocated(addresses)
  {
    var found: Sources := map[];
    for k := 0 to |addresses|
      invariant found == Allocated(addresses[..k]) && OnePerFamily(addresses[..k])
    {
      assert addresses[..k + 1][..k] == addresses[..k];
      var f := addresses[k].family;
      if f in found {
        AllocatedFrom(addresses[..k], f);
        return None;
      }
      forall i | 0 <= i < k
        ensures addresses[i].family != f
      {
        AllocatedFamilies(addresses[..k], i);
      }
      found := found[f := addresses[k]];
    }
    assert addresses[..|addresses|] == addresses;
    return Some(found);
  }

  function Families(hosts: set<Address>): set<Family> {
    set h | h in hosts :: h.family
  }

  function Restrict(sources: Sources, families: set<Family>): Sources {
    map f | f in sources && f in families :: sources[f]
  }

  function HostSet(hosts: seq<Address>): set<Address> {
    set h | h in hosts
  }

  predicate Plannable(addresses: seq<Address>, hosts: seq<Address>) {
    hosts == [] || (OnePerFamily(addresses) && Families(HostSet(hosts)) <= Allocated(addresses).Keys)
  }

  /** A plan exists exactly when nothing is wanted, or every host has the one allocation of its family. */
  lemma PlannableIff(addresses: seq<Address>, hosts: seq<Address>)
    ensures Plannable(addresses, hosts) <==>
            || hosts == []
            || (&& OnePerFamily(addresses)
                && forall h | h in hosts :: exists a :: a in addresses && a.family == h.family)
  {
    if hosts != [] && OnePerFamily(addresses) {
      AllocatedIff(addresses);
      forall h | h in hosts
        ensures h.family in Allocated(addresses) <==> exists a :: a in addresses && a.family == h.family
      {
        if h.family in Allocated(addresses) {
          AllocatedFrom(addresses, h.family);
        }
      }
      assert forall h | h in hosts :: h.family in Families(HostSet(hosts)) by {
        assert forall h | h in hosts :: h in HostSet(hosts);
      }
    }
  }

  /** The planned sources: for each host's family its allocation, and for no other family. */
  lemma PlannedSources(addresses: seq<Address>, hosts: seq<Address>, a: Address)
    requires OnePerFamily(addresses)
    ensures var sources := Restrict(Allocated(addresses), Families(HostSet(hosts)));
            a.family in sources && sources[a.family] == a <==>
            a in addresses && exists h :: h in hosts && h.family == a.family
  {
    AllocatedIff(addresses);
    if h :| h in hosts && h.family == a.family {
      assert h in HostSet(hosts);
    }
  }

  /** One source per wanted family, and the wanted hosts. */
  method Plan(addresses: seq<Address>, hosts: seq<Address>) returns (ok: bool, sources: Sources, desired: set<Address>)
    ensures ok <==> Plannable(addresses, hosts)
    ensures ok ==> sources == Restrict(Allocated(addresses), Families(HostSet(hosts))) && desired == HostSet(hosts)
  {
    sources, desired := map[], {};
    if hosts == [] {
      return true, sources, desired;
    }
    var alloc := Allocations(addresses);
    if alloc.None? {
      return false, sources, desired;
    }
    var families: set<Family> := {};
    for k := 0 to |hosts|
      invariant desired == HostSet(hosts[..k]) && families == Families(desired) && families <= alloc.value.Keys
    {
      assert hosts[..k + 1] == hosts[..k] + [hosts[k]];
      if hosts[k].family !in alloc.value {
        assert hosts[k] in HostSet(hosts) && hosts[k].family in Families(HostSet(hosts));
        return false, sources, desired;
      }
      desired := desired + {hosts[k]};
      families := families + {hosts[k].family};
    }
    assert hosts[..|hosts|] == hosts;
    return true, Restrict(alloc.value, families), desired;
  }

  // ----- Hosts outside the scope -----

  function Outside(routes: map<Address, Device>, scope: Scope): set<Address> {
    set h | h in routes && !Owned(scope, h)
  }

  function Count(rules: seq<Rule>, r: Rule): nat {
    if rules == [] then 0 else Count(rules[..|rules| - 1], r) + if rules[|rules| - 1] == r then 1 else 0
  }

  lemma {:induction false} CountIn(rules: seq<Rule>, r: Rule)
    ensures Count(rules, r) > 0 <==> r in rules
  {
    if rules != [] {
      CountIn(rules[..|rules| - 1], r);
      assert rules == rules[..|rules| - 1] + [rules[|rules| - 1]];
    }
  }

  lemma {:induction false} CountPrefix(rules: seq<Rule>, k: nat, r: Rule)
    requires k <= |rules|
    ensures Count(rules[..k], r) <= Count(rules, r)
  {
    if k == |rules| {
      assert rules[..k] == rules;
    } else {
      var front := rules[..|rules| - 1];
      assert front[..k] == rules[..k];
      CountPrefix(front, k, r);
    }
  }

  /** The family has its allocated selector once, and no other. */
  predicate Selected(rules: seq<Rule>, f: Family, alloc: Sources) {
    f in alloc && Count(rules, Rule(f, alloc[f])) == 1 && forall i | 0 <= i < |rules| && rules[i].family == f ::
      rules[i].src == alloc[f]
  }

  predicate Preservable(routes: map<Address, Device>, rules: seq<Rule>, scope: Scope, alloc: Sources) {
    forall f | f in Families(Outside(routes, scope)) :: Selected(rules, f, alloc)
  }

  method CheckSelector(rules: seq<Rule>, f: Family, alloc: Sources) returns (ok: bool)
    ensures ok <==> Selected(rules, f, alloc)
  {
    if f !in alloc {
      return false;
    }
    var count := 0;
    for k := 0 to |rules|
      invariant count == Count(rules[..k], Rule(f, alloc[f]))
      invariant forall i | 0 <= i < k && rules[i].family == f :: rules[i].src == alloc[f]
    {
      assert rules[..k + 1][..k] == rules[..k];
      if rules[k].family != f {
        continue;
      }
      if rules[k].src != alloc[f] {
        return false;
      }
      count := count + 1;
    }
    assert rules[..|rules|] == rules;
    ok := count == 1;
  }

  /** The families with hosts outside the scope, when each already has its one selector. */
  method Preserve(state: State, scope: set<Prefix>, alloc: Sources) returns (ok: bool, hosts: set<Address>)
    ensures hosts == Outside(state.routes, Some(scope))
    ensures ok <==> Preservable(state.routes, state.rules, Some(scope), alloc)
  {
    hosts := {};
    var todo := state.routes.Keys;
    while todo != {}
      invariant todo <= state.routes.Keys
      invariant hosts == set h | h in state.routes && h !in todo && !InScope(scope, h)
      decreases |todo|
    {
      var h :| h in todo;
      var inScope := FindScope(scope, h);
      if !inScope {
        hosts := hosts + {h};
      }
      todo := todo - {h};
    }
    assert hosts == Outside(state.routes, Some(scope));
    var families := Families(hosts);
    while families != {}
      invariant families <= Families(hosts)
      invariant forall f | f in Families(hosts) - families :: Selected(state.rules, f, alloc)
      decreases |families|
    {
      var f :| f in families;
      ok := CheckSelector(state.rules, f, alloc);
      if !ok {
        return;
      }
      families := families - {f};
    }
    ok := true;
  }

  // ----- Selectors -----

  /** How often a rule should be listed. */
  function Want(sources: Sources, r: Rule): nat {
    if r.family in sources && r.src == sources[r.family] then 1 else 0
  }

  /** Exactly one selector for each family that has a source, and nothing else. */
  ghost predicate Exactly(rules: seq<Rule>, sources: Sources) {
    forall r :: Count(rules, r) == Want(sources, r)
  }

  /** The rules are `stale` and exactly one selector per source. */
  ghost predicate Splits(rules: seq<Rule>, stale: seq<Rule>, sources: Sources) {
    forall r :: Count(rules, r) == Count(stale, r) + Want(sources, r)
  }

  /** The first rule that is its family's selector. */
  predicate IsWanted(r: Rule, sources: Sources, found: set<Family>) {
    r.family in sources && r.family !in found && r.src == sources[r.family]
  }

  function Found(rules: seq<Rule>, sources: Sources): set<Family> {
    if rules == [] then {}
    else
      var front, last := Found(rules[..|rules| - 1], sources), rules[|rules| - 1];
      if IsWanted(last, sources, front) then front + {last.family} else front
  }

  function Stale(rules: seq<Rule>, sources: Sources): seq<Rule> {
    if rules == [] then []
    else
      var front, last := rules[..|rules| - 1], rules[|rules| - 1];
      Stale(front, sources) + if IsWanted(last, sources, Found(front, sources)) then [] else [last]
  }

  /** Splits the rules into one kept selector per family and the stale rest. */
  method Sort(rules: seq<Rule>, sources: Sources) returns (found: set<Family>, stale: seq<Rule>)
    ensures found == Found(rules, sources) && stale == Stale(rules, sources)
  {
    found, stale := {}, [];
    for k := 0 to |rules|
      invariant found == Found(rules[..k], sources) && stale == Stale(rules[..k], sources)
    {
      assert rules[..k + 1][..k] == rules[..k];
      if rules[k].family in sources && rules[k].family !in found && rules[k].src == sources[rules[k].family] {
        found := found + {rules[k].family};
      } else {
        stale := stale + [rules[k]];
      }
    }
    assert rules[..|rules|] == rules;
  }

  lemma CountAppend(rules: seq<Rule>, x: Rule, r: Rule)
    ensures Count(rules + [x], r) == Count(rules, r) + if x == r then 1 else 0
  {
    assert (rules + [x])[..|rules|] == rules;
  }

  lemma {:induction false} SortCounts(rules: seq<Rule>, sources: Sources, r: Rule)
    ensures Found(rules, sources) <= sources.Keys && |rules| == |Stale(rules, sources)| + |Found(rules, sources)|
    ensures Count(rules, r) == Count(Stale(rules, sources), r) + Want(Restrict(sources, Found(rules, sources)), r)
    ensures r in rules && Want(sources, r) == 1 ==> r.family in Found(rules, sources)
  {
    if rules != [] {
      var front, last := rules[..|rules| - 1], rules[|rules| - 1];
      SortCounts(front, sources, r);
      assert rules == front + [last];
      if IsWanted(last, sources, Found(front, sources)) {
        assert Stale(rules, sources) == Stale(front, sources);
      } else {
        CountAppend(Stale(front, sources), last, r);
      }
    }
  }

  function RemoveFirst(rules: seq<Rule>, r: Rule): seq<Rule> {
    if rules == [] then []
    else if rules[|rules| - 1] == r && r !in rules[..|rules| - 1] then rules[..|rules| - 1]
    else RemoveFirst(rules[..|rules| - 1], r) + [rules[|rules| - 1]]
  }

  lemma {:induction false} RemovedOne(rules: seq<Rule>, x: Rule, r: Rule)
    ensures Count(RemoveFirst(rules, x), r) == if x == r && Count(rules, r) > 0 then Count(rules, r) - 1
              else Count(rules, r)
  {
    if rules != [] {
      var front, last := rules[..|rules| - 1], rules[|rules| - 1];
      CountIn(front, x);
      if !(last == x && x !in front) {
        RemovedOne(front, x, r);
        CountAppend(RemoveFirst(front, x), last, r);
      }
    }
  }

  function RemoveAll(rules: seq<Rule>, stale: seq<Rule>): seq<Rule> {
    if stale == [] then rules else RemoveFirst(RemoveAll(rules, stale[..|stale| - 1]), stale[|stale| - 1])
  }

  lemma {:induction false} RemovedAll(rules: seq<Rule>, stale: seq<Rule>, r: Rule)
    requires Count(stale, r) <= Count(rules, r)
    ensures Count(RemoveAll(rules, stale), r) == Count(rules, r) - Count(stale, r)
  {
    if stale != [] {
      var front, last := stale[..|stale| - 1], stale[|stale| - 1];
      RemovedAll(rules, front, r);
      RemovedOne(RemoveAll(rules, front), last, r);
    }
  }

  // ----- Readback -----

  /** Exactly one selector per source. */
  method VerifySelectors(rules: seq<Rule>, sources: Sources) returns (ok: bool)
    ensures ok <==> Exactly(rules, sources)
  {
    if |rules| != |sources.Keys| {
      WrongCount(rules, sources);
      return false;
    }
    var seen: set<Family> := {};
    for k := 0 to |rules|
      invariant seen == Found(rules[..k], sources) && Stale(rules[..k], sources) == []
    {
      assert rules[..k + 1][..k] == rules[..k];
      var r := rules[k];
      if r.family !in sources || r.src != sources[r.family] || r.family in seen {
        WrongRule(rules, k, sources);
        return false;
      }
      seen := seen + {r.family};
    }
    assert rules[..|rules|] == rules;
    AllSeen(rules, sources);
    ok := true;
  }

  lemma SameSize(a: set<Family>, b: set<Family>)
    requires a <= b && |a| == |b|
    ensures a == b
  {
    assert |b - a| == |b| - |a|;
  }

  lemma AllSeen(rules: seq<Rule>, sources: Sources)
    requires Stale(rules, sources) == [] && |rules| == |sources.Keys|
    ensures Exactly(rules, sources)
  {
    forall r
      ensures Count(rules, r) == Want(sources, r)
    {
      SortCounts(rules, sources, r);
      SameSize(Found(rules, sources), sources.Keys);
    }
  }

  lemma WrongCount(rules: seq<Rule>, sources: Sources)
    requires |rules| != |sources.Keys|
    ensures !Exactly(rules, sources)
  {
    if Exactly(rules, sources) {
      ExactHasNoStale(rules, sources);
    }
  }

  lemma ExactHasNoStale(rules: seq<Rule>, sources: Sources)
    requires Exactly(rules, sources)
    ensures |rules| == |sources.Keys|
  {
    var stale := Stale(rules, sources);
    assert stale == [] || stale[0] in stale;
    forall f | f in sources
      ensures f in Found(rules, sources)
    {
      var r := Rule(f, sources[f]);
      assert Count(rules, r) == Want(sources, r);
      CountIn(rules, r);
      SortCounts(rules, sources, r);
    }
    forall r
      ensures r !in stale
    {
      SortCounts(rules, sources, r);
      CountIn(stale, r);
      CountIn(rules, r);
      assert Count(rules, r) == Want(sources, r);
    }
    SortCounts(rules, sources, Rule(V4, Address(V4, [])));
    assert Found(rules, sources) == sources.Keys;
  }

  lemma WrongRule(rules: seq<Rule>, k: nat, sources: Sources)
    requires k < |rules| && Stale(rules[..k], sources) == []
    requires rules[k].family !in sources || rules[k].src != sources[rules[k].family] ||
               rules[k].family in Found(rules[..k], sources)
    ensures !Exactly(rules, sources)
  {
    var r := rules[k];
    CountPrefix(rules, k + 1, r);
    assert rules[..k + 1][..k] == rules[..k];
    SortCounts(rules[..k], sources, r);
    assert Count(rules, r) != Want(sources, r);
  }

  function Others(rules: seq<Rule>, sources: Sources): seq<Rule> {
    if rules == [] then []
    else
      var last := rules[|rules| - 1];
      Others(rules[..|rules| - 1], sources) + if last.family in sources then [] else [last]
  }

  lemma {:induction false} OthersCount(rules: seq<Rule>, sources: Sources, r: Rule)
    ensures Count(Others(rules, sources), r) == if r.family in sources then 0 else Count(rules, r)
  {
    if rules != [] {
      var front, last := rules[..|rules| - 1], rules[|rules| - 1];
      OthersCount(front, sources, r);
      if last.family in sources {
        assert Others(rules, sources) == Others(front, sources);
      } else {
        CountAppend(Others(front, sources), last, r);
      }
    }
  }

  /** The rules of families without a source; the others have exactly their one selector. */
  method Unneeded(rules: seq<Rule>, sources: Sources) returns (stale: seq<Rule>)
    requires forall f | f in sources :: Selected(rules, f, sources)
    ensures Splits(rules, stale, sources)
  {
    stale := [];
    for k := 0 to |rules|
      invariant stale == Others(rules[..k], sources)
    {
      assert rules[..k + 1][..k] == rules[..k];
      if rules[k].family !in sources {
        stale := stale + [rules[k]];
      }
    }
    assert rules[..|rules|] == rules;
    OthersSplit(rules, sources);
  }

  lemma OthersSplit(rules: seq<Rule>, sources: Sources)
    requires forall f | f in sources :: Selected(rules, f, sources)
    ensures Splits(rules, Others(rules, sources), sources)
  {
    forall r
      ensures Count(rules, r) == Count(Others(rules, sources), r) + Want(sources, r)
    {
      OthersCount(rules, sources, r);
      CountIn(rules, r);
      if r.family in sources {
        assert Selected(rules, r.family, sources);
      }
    }
  }

  // ----- The state to reach -----

  /** Wanted hosts on their devices, and every host outside the scope as it was. */
  function Target(routes: map<Address, Device>, scope: Scope, wanted: map<Address, Device>): map<Address, Device> {
    map h | h in routes.Keys + wanted.Keys && (h in wanted || !Owned(scope, h)) :: if h in wanted then wanted[h]
      else routes[h]
  }

  function OnDevices(hosts: seq<Address>, devices: map<Address, Device>, index: Device): map<Address, Device> {
    map h | h in HostSet(hosts) :: if h in devices then devices[h] else index
  }

  /** Routes as wanted, and exactly one selector for each family that has a route. */
  ghost predicate Settled(now: State, start: State, scope: Scope, wanted: map<Address, Device>, alloc: Sources) {
    && now.routes == Target(start.routes, scope, wanted)
    && Exactly(now.rules, Restrict(alloc, Families(now.routes.Keys)))
    && Families(now.routes.Keys) <= alloc.Keys
  }

  lemma FamiliesUnion(a: set<Address>, b: set<Address>)
    ensures Families(a + b) == Families(a) + Families(b)
  {
    forall h | h in a ensures h.family in Families(a + b) {
      assert h in a + b;
    }
    forall h | h in b ensures h.family in Families(a + b) {
      assert h in a + b;
    }
  }

  lemma TargetKeys(routes: map<Address, Device>, scope: Scope, wanted: map<Address, Device>)
    ensures Target(routes, scope, wanted).Keys == wanted.Keys + Outside(routes, scope)
  {
  }

  /** Every family that keeps a route has an allocated source. */
  lemma AllocatedCovers(addresses: seq<Address>, hosts: seq<Address>, start: State, scope: Scope)
    requires Plannable(addresses, hosts) && Preservable(start.routes, start.rules, scope, Allocated(addresses))
    ensures Families(HostSet(hosts)) + Families(Outside(start.routes, scope)) <= Allocated(addresses).Keys
  {
    if hosts == [] {
      assert HostSet(hosts) == {} && Families({}) == {};
    }
    forall f | f in Families(Outside(start.routes, scope)) ensures f in Allocated(addresses) {
      assert Selected(start.rules, f, Allocated(addresses));
    }
  }

  lemma RoutesReached(start: map<Address, Device>, routes: map<Address, Device>, scope: Scope, hosts: seq<Address>,
                      devices: map<Address, Device>, index: Device)
    requires forall i | 0 <= i < |hosts| :: Owned(scope, hosts[i])
    requires forall h | h in hosts :: h in routes && routes[h] == if h in devices then devices[h] else index
    requires forall h | h !in hosts && (h !in start || !Owned(scope, h)) ::
               (h in routes <==> h in start) && (h in routes ==> routes[h] == start[h])
    requires forall h | h in start && h !in hosts && Owned(scope, h) :: h !in routes
    ensures routes == Target(start, scope, OnDevices(hosts, devices, index))
  {
    var t := Target(start, scope, OnDevices(hosts, devices, index));
    forall h
      ensures h in routes <==> h in t
      ensures h in routes ==> routes[h] == t[h]
    {
      if h in hosts {
        assert h in HostSet(hosts);
      }
    }
  }

  lemma FamiliesReached(addresses: seq<Address>, hosts: seq<Address>, start: State, scope: Scope,
                        wanted: map<Address, Device>)
    requires Plannable(addresses, hosts)
    requires Preservable(start.routes, start.rules, scope, Allocated(addresses))
    requires wanted.Keys == HostSet(hosts)
    ensures var families := Families(Target(start.routes, scope, wanted).Keys);
            families == Families(HostSet(hosts)) + Families(Outside(start.routes, scope)) &&
              families <= Allocated(addresses).Keys
  {
    TargetKeys(start.routes, scope, wanted);
    FamiliesUnion(wanted.Keys, Outside(start.routes, scope));
    AllocatedCovers(addresses, hosts, start, scope);
  }

  lemma WithdrawnReached(addresses: seq<Address>, start: State, routes: map<Address, Device>, scope: set<Prefix>)
    requires Preservable(start.routes, start.rules, Some(scope), Allocated(addresses))
    requires forall h :: h in routes <==> h in start.routes && !InScope(scope, h)
    requires forall h | h in routes :: routes[h] == start.routes[h]
    ensures routes == Target(start.routes, Some(scope), map[])
    ensures Families(routes.Keys) == Families(Outside(start.routes, Some(scope))) <= Allocated(addresses).Keys
  {
    assert routes.Keys == Outside(start.routes, Some(scope));
    AllocatedCovers(addresses, [], start, Some(scope));
  }

  // ----- States in between -----

  /** Each host outside the scope is routed as at the start and reached by its selector. */
  ghost predicate Safe(now: State, start: State, scope: Scope, alloc: Sources) {
    forall h | !Owned(scope, h) :: SafeAt(now, start, h, alloc)
  }

  ghost predicate SafeAt(now: State, start: State, h: Address, alloc: Sources) {
    && (h in now.routes <==> h in start.routes)
    && (h in now.routes ==>
         now.routes[h] == start.routes[h] && h.family in alloc && Rule(h.family, alloc[h.family]) in now.rules)
  }

  ghost predicate AllSafe(states: seq<State>, start: State, scope: Scope, alloc: Sources) {
    forall i | 0 <= i < |states| :: Safe(states[i], start, scope, alloc)
  }

  lemma PreservableIsSafe(start: State, scope: Scope, alloc: Sources)
    requires Preservable(start.routes, start.rules, scope, alloc)
    ensures Safe(start, start, scope, alloc)
  {
    forall h | !Owned(scope, h) && h in start.routes
      ensures h.family in alloc && Rule(h.family, alloc[h.family]) in start.rules
    {
      assert h in Outside(start.routes, scope);
      assert h.family in Families(Outside(start.routes, scope));
      assert Selected(start.rules, h.family, alloc);
      CountIn(start.rules, Rule(h.family, alloc[h.family]));
    }
  }

  lemma SafeTransition(now: State, next: State, start: State, scope: Scope, alloc: Sources)
    requires Safe(now, start, scope, alloc)
    requires forall h | !Owned(scope, h) ::
               (h in next.routes <==> h in now.routes) && (h in now.routes ==> next.routes[h] == now.routes[h])
    requires forall h | !Owned(scope, h) && h in start.routes && h.family in alloc &&
               Rule(h.family, alloc[h.family]) in now.rules ::
               Rule(h.family, alloc[h.family]) in next.rules
    ensures Safe(next, start, scope, alloc)
  {
    forall h | !Owned(scope, h)
      ensures SafeAt(next, start, h, alloc)
    {
      assert SafeAt(now, start, h, alloc);
    }
  }

  /** Every family with hosts outside the scope has its allocated source. */
  ghost predicate Serves(sources: Sources, start: State, scope: Scope, alloc: Sources) {
    forall h | !Owned(scope, h) && h in start.routes ::
      h.family in sources && h.family in alloc && sources[h.family] == alloc[h.family]
  }

  /** Removing a stale rule leaves every selector that hosts outside the scope need. */
  lemma StaleStep(now: State, rules: seq<Rule>, stale: seq<Rule>, k: nat, sources: Sources, start: State,
                  scope: Scope, alloc: Sources)
    requires Safe(now, start, scope, alloc) && k < |stale| && Splits(rules, stale, sources)
    requires Serves(sources, start, scope, alloc)
    requires now.rules == RemoveAll(rules, stale[..k])
    ensures Safe(State(now.routes, RemoveFirst(now.rules, stale[k])), start, scope, alloc)
  {
    var next := State(now.routes, RemoveFirst(now.rules, stale[k]));
    assert stale[..k + 1][..k] == stale[..k];
    assert next.rules == RemoveAll(rules, stale[..k + 1]);
    forall h | !Owned(scope, h) && h in start.routes
      ensures h.family in alloc && Rule(h.family, alloc[h.family]) in next.rules
    {
      var r := Rule(h.family, alloc[h.family]);
      CountPrefix(stale, k + 1, r);
      RemovedAll(rules, stale[..k + 1], r);
      CountIn(next.rules, r);
    }
    SafeTransition(now, next, start, scope, alloc);
  }

  lemma StaleGone(rules: seq<Rule>, stale: seq<Rule>, sources: Sources)
    requires Splits(rules, stale, sources)
    ensures Exactly(RemoveAll(rules, stale), sources)
  {
    forall r
      ensures Count(RemoveAll(rules, stale), r) == Want(sources, r)
    {
      RemovedAll(rules, stale, r);
    }
  }

  function Absent(f: Family, sources: Sources, found: set<Family>): seq<Rule> {
    if f in sources && f !in found then [Rule(f, sources[f])] else []
  }

  lemma {:induction false} CountConcat(a: seq<Rule>, b: seq<Rule>, r: Rule)
    ensures Count(a + b, r) == Count(a, r) + Count(b, r)
  {
    if b == [] {
      assert a + b == a;
    } else {
      CountConcat(a, b[..|b| - 1], r);
      assert (a + b)[..|a + b| - 1] == a + b[..|b| - 1];
    }
  }

  /** With the missing selectors added, the rules are the stale ones and exactly one per source. */
  lemma CompletedSplits(rules: seq<Rule>, sources: Sources)
    ensures var found := Found(rules, sources);
            Splits(rules + Absent(V4, sources, found) + Absent(V6, sources, found), Stale(rules, sources), sources)
  {
    var found := Found(rules, sources);
    var four, six := Absent(V4, sources, found), Absent(V6, sources, found);
    forall r
      ensures Count(rules + four + six, r) == Count(Stale(rules, sources), r) + Want(sources, r)
    {
      CountConcat(rules, four, r);
      CountConcat(rules + four, six, r);
      SortCounts(rules, sources, r);
      AbsentCount(sources, found, r);
    }
  }

  lemma AbsentCount(sources: Sources, found: set<Family>, r: Rule)
    requires found <= sources.Keys
    ensures Want(Restrict(sources, found), r) + Count(Absent(V4, sources, found), r) +
              Count(Absent(V6, sources, found), r) == Want(sources, r)
  {
    assert r.family == V4 || r.family == V6;
    forall f: Family
      ensures Count(Absent(f, sources, found), r) == if f in sources && f !in found && r == Rule(f, sources[f]) then 1
                else 0
    {
      if f in sources && f !in found {
        CountAppend([], Rule(f, sources[f]), r);
        assert [] + [Rule(f, sources[f])] == [Rule(f, sources[f])];
      }
    }
  }

  lemma NoneLeft(rules: seq<Rule>)
    requires Exactly(rules, map[])
    ensures rules == []
  {
    assert rules == [] || rules[0] in rules;
    forall r ensures r !in rules {
      CountIn(rules, r);
      assert Count(rules, r) == Want(map[], r);
    }
  }

  lemma PlannedServes(addresses: seq<Address>, hosts: seq<Address>, start: State, scope: Scope, sources: Sources)
    requires Plannable(addresses, hosts) && Preservable(start.routes, start.rules, scope, Allocated(addresses))
    requires sources ==
               Restrict(Allocated(addresses), Families(HostSet(hosts)) + Families(Outside(start.routes, scope)))
    ensures Serves(sources, start, scope, Allocated(addresses))
  {
    AllocatedCovers(addresses, hosts, start, scope);
    forall h | !Owned(scope, h) && h in start.routes
      ensures h.family in Families(Outside(start.routes, scope))
    {
      assert h in Outside(start.routes, scope);
    }
  }

  /** A scope names at least one destination and no default route. */
  predicate ValidScope(scope: set<Prefix>) {
    scope != {} && forall p | p in scope :: p.bits != []
  }

  /** Some destination, and none that is everything. */
  ghost predicate Bounded(scope: set<Prefix>) {
    |scope| > 0 && forall p | p in scope :: |p.bits| > 0
  }

  /** What a pass asks before it changes anything. */
  ghost predicate Reconcilable(start: State, scope: Scope, addresses: seq<Address>, hosts: seq<Address>) {
    if scope.None? then Plannable(addresses, hosts)
    else
      && Bounded(scope.value)
      && Plannable(addresses, hosts) && OnePerFamily(addresses)
      && (forall h | h in hosts :: InScope(scope.value, h))
      && Preservable(start.routes, start.rules, scope, Allocated(addresses))
  }

  /** What a withdrawal asks before it changes anything. */
  ghost predicate Withdrawable(start: State, scope: set<Prefix>, addresses: seq<Address>, admitted: seq<Address>) {
    && Bounded(scope)
    && Plannable(addresses, admitted) && OnePerFamily(addresses)
    && (forall h | h in admitted :: InScope(scope, h))
    && (forall i | 0 <= i < |start.rules| :: Want(Allocated(addresses), start.rules[i]) == 1)
    && Preservable(start.routes, start.rules, Some(scope), Allocated(addresses))
    && (forall h | h in start.routes && InScope(scope, h) :: h in admitted)
  }

  class SourceTable {
    var routes: map<Address, Device>
    var rules: seq<Rule>
    /** Every kernel state so far, the present one last. */
    ghost var trace: seq<State>
    /** How many kernel calls have failed. */
    ghost var faults: nat

    ghost function Now(): State
      reads this
    {
      State(routes, rules)
    }

    ghost predicate Valid()
      reads this
    {
      trace != [] && trace[|trace| - 1] == Now()
    }

    constructor (routes: map<Address, Device>, rules: seq<Rule>)
      ensures this.routes == routes && this.rules == rules && Valid()
    {
      this.routes, this.rules := routes, rules;
      faults := 0;
      trace := [State(routes, rules)];
    }

    // ----- Single kernel calls -----

    method ReplaceRoute(h: Address, d: Device) returns (ok: bool)
      requires Valid()
      modifies this`routes, this`trace, this`faults
      ensures Valid() && trace == (if ok then old(trace) + [Now()] else old(trace))
      ensures if ok then faults == old(faults) else faults > old(faults)
      ensures routes == if ok then old(routes)[h := d] else old(routes)
    {
      ok := *;
      if ok {
        routes := routes[h := d];
        trace := trace + [Now()];
      } else {
        faults := faults + 1;
      }
    }

    method DeleteRoute(h: Address) returns (ok: bool)
      requires Valid()
      modifies this`routes, this`trace, this`faults
      ensures Valid() && trace == (if ok then old(trace) + [Now()] else old(trace))
      ensures if ok then faults == old(faults) else faults > old(faults)
      ensures routes == if ok then old(routes) - {h} else old(routes)
    {
      ok := *;
      if ok {
        routes := routes - {h};
        trace := trace + [Now()];
      } else {
        faults := faults + 1;
      }
    }

    method AddRule(r: Rule) returns (ok: bool)
      requires Valid()
      modifies this`rules, this`trace, this`faults
      ensures Valid() && trace == (if ok then old(trace) + [Now()] else old(trace))
      ensures if ok then faults == old(faults) else faults > old(faults)
      ensures rules == if ok then old(rules) + [r] else old(rules)
    {
      ok := *;
      if ok {
        rules := rules + [r];
        trace := trace + [Now()];
      } else {
        faults := faults + 1;
      }
    }

    method DeleteRule(r: Rule) returns (ok: bool)
      requires Valid()
      modifies this`rules, this`trace, this`faults
      ensures Valid() && trace == (if ok then old(trace) + [Now()] else old(trace))
      ensures if ok then faults == old(faults) else faults > old(faults)
      ensures rules == if ok then RemoveFirst(old(rules), r) else old(rules)
    {
      ok := *;
      if ok {
        rules := RemoveFirst(rules, r);
        trace := trace + [Now()];
      } else {
        faults := faults + 1;
      }
    }

    // ----- Loops over kernel calls -----

    /** Every state since `n` is safe, the present one included. */
    ghost predicate Kept(n: nat, start: State, scope: Scope, alloc: Sources)
      reads this
    {
      Valid() && n <= |trace| && AllSafe(trace[n..], start, scope, alloc) && Safe(Now(), start, scope, alloc)
    }

    method Install(hosts: seq<Address>, devices: map<Address, Device>, index: Device, ghost n: nat,
                   ghost start: State, ghost scope: Scope, ghost alloc: Sources)
      returns (ok: bool)
      requires Kept(n, start, scope, alloc) && forall i | 0 <= i < |hosts| :: Owned(scope, hosts[i])
      modifies this`routes, this`trace, this`faults
      ensures Kept(n, start, scope, alloc) && old(trace) <= trace
      ensures (if ok then faults == old(faults) else faults > old(faults))
      ensures forall h | h !in hosts ::
                (h in routes <==> h in old(routes)) && (h in routes ==> routes[h] == old(routes)[h])
      ensures forall h | h in old(routes) :: h in routes
      ensures ok ==> forall h | h in hosts :: h in routes && routes[h] == if h in devices then devices[h] else index
    {
      for k := 0 to |hosts|
        invariant Kept(n, start, scope, alloc) && faults == old(faults) && old(trace) <= trace
        invariant forall h | h !in hosts ::
                    (h in routes <==> h in old(routes)) && (h in routes ==> routes[h] == old(routes)[h])
        invariant forall h | h in old(routes) :: h in routes
        invariant forall i | 0 <= i < k ::
                    hosts[i] in routes && routes[hosts[i]] == if hosts[i] in devices then devices[hosts[i]] else index
      {
        var d := if hosts[k] in devices then devices[hosts[k]] else index;
        SafeTransition(Now(), State(routes[hosts[k] := d], rules), start, scope, alloc);
        ok := ReplaceRoute(hosts[k], d);
        if !ok {
          return;
        }
      }
      ok := true;
    }

    method Delete(hosts: set<Address>, ghost n: nat, ghost start: State, ghost scope: Scope, ghost alloc: Sources)
      returns (ok: bool)
      requires Kept(n, start, scope, alloc) && forall h | h in hosts :: Owned(scope, h)
      modifies this`routes, this`trace, this`faults
      ensures Kept(n, start, scope, alloc) && old(trace) <= trace
      ensures (if ok then faults == old(faults) else faults > old(faults))
      ensures forall h | h !in hosts ::
                (h in routes <==> h in old(routes)) && (h in routes ==> routes[h] == old(routes)[h])
      ensures ok ==> forall h | h in hosts :: h !in routes
    {
      var todo := hosts;
      while todo != {}
        invariant todo <= hosts && faults == old(faults) && Kept(n, start, scope, alloc) && old(trace) <= trace
        invariant forall h | h !in hosts ::
                    (h in routes <==> h in old(routes)) && (h in routes ==> routes[h] == old(routes)[h])
        invariant forall h | h in hosts && h !in todo :: h !in routes
        decreases |todo|
      {
        var h :| h in todo;
        SafeTransition(Now(), State(routes - {h}, rules), start, scope, alloc);
        ok := DeleteRoute(h);
        if !ok {
          return;
        }
        todo := todo - {h};
      }
      ok := true;
    }

    method AddMissing(sources: Sources, found: set<Family>, ghost n: nat, ghost start: State, ghost scope: Scope,
                      ghost alloc: Sources) returns (ok: bool)
      requires Kept(n, start, scope, alloc)
      modifies this`rules, this`trace, this`faults
      ensures Kept(n, start, scope, alloc) && old(trace) <= trace
      ensures (if ok then faults == old(faults) else faults > old(faults))
      ensures ok ==> rules == old(rules) + Absent(V4, sources, found) + Absent(V6, sources, found)
    {
      ok := AddSelector(V4, sources, found, n, start, scope, alloc);
      if !ok {
        return;
      }
      ok := AddSelector(V6, sources, found, n, start, scope, alloc);
    }

    method AddSelector(f: Family, sources: Sources, found: set<Family>, ghost n: nat, ghost start: State,
                       ghost scope: Scope, ghost alloc: Sources) returns (ok: bool)
      requires Kept(n, start, scope, alloc)
      modifies this`rules, this`trace, this`faults
      ensures Kept(n, start, scope, alloc) && old(trace) <= trace
      ensures (if ok then faults == old(faults) else faults > old(faults))
      ensures ok ==> rules == old(rules) + Absent(f, sources, found)
    {
      if f !in sources || f in found {
        return true;
      }
      SafeTransition(Now(), State(routes, rules + [Rule(f, sources[f])]), start, scope, alloc);
      ok := AddRule(Rule(f, sources[f]));
    }

    method DeleteStale(stale: seq<Rule>, ghost sources: Sources, ghost n: nat, ghost start: State, ghost scope: Scope,
                       ghost alloc: Sources) returns (ok: bool)
      requires Kept(n, start, scope, alloc) && Splits(rules, stale, sources) && Serves(sources, start, scope, alloc)
      modifies this`rules, this`trace, this`faults
      ensures Kept(n, start, scope, alloc) && old(trace) <= trace
      ensures (if ok then faults == old(faults) else faults > old(faults))
      ensures ok ==> Exactly(rules, sources)
    {
      for k := 0 to |stale|
        invariant Kept(n, start, scope, alloc) && faults == old(faults) && old(trace) <= trace
        invariant rules == RemoveAll(old(rules), stale[..k])
      {
        assert stale[..k + 1][..k] == stale[..k];
        StaleStep(Now(), old(rules), stale, k, sources, start, scope, alloc);
        ok := DeleteRule(stale[k]);
        if !ok {
          return;
        }
      }
      assert stale[..|stale|] == stale;
      StaleGone(old(rules), stale, sources);
      ok := true;
    }

    // ----- Reconcile -----

    /** Without a scope and without hosts every exception is withdrawn, selectors first. */
    method Clear() returns (ok: bool)
      requires Valid()
      modifies this`routes, this`rules, this`trace, this`faults
      ensures Valid() && old(trace) <= trace && (if ok then faults == old(faults) else faults > old(faults))
      ensures ok ==> routes == map[] && rules == []
    {
      ghost var n := |trace|;
      assert Splits(rules, rules, map[]);
      ok := DeleteStale(rules, map[], n, Now(), None, map[]);
      if !ok {
        return;
      }
      NoneLeft(rules);
      ok := Delete(routes.Keys, n, Now(), None, map[]);
    }

    /**
     One pass for `hosts`. It refuses before any change, or every state it goes through keeps the
     hosts outside the scope; a completed pass is exact.
     */
    method Reconcile(scope: Scope, addresses: seq<Address>, hosts: seq<Address>, devices: map<Address, Device>,
                     index: Device) returns (ok: bool)
      requires Valid()
      modifies this`routes, this`rules, this`trace, this`faults
      ensures Valid() && old(trace) <= trace
      ensures AllSafe(trace[|old(trace)|..], old(Now()), scope, Allocated(addresses))
      ensures ok ==> Settled(Now(), old(Now()), scope, OnDevices(hosts, devices, index), Allocated(addresses))
      ensures Reconcilable(old(Now()), scope, addresses, hosts) && faults == old(faults) ==> ok
      ensures !Reconcilable(old(Now()), scope, addresses, hosts) ==> !ok && Now() == old(Now())
    {
      if hosts == [] && scope.None? {
        ok := Clear();
        if ok {
          assert Families({}) == {} && Restrict(Allocated(addresses), {}) == map[];
          assert rules == [];
        }
        return;
      }
      if scope.Some? && (!ValidScope(scope.value) || exists h :: h in hosts && !InScope(scope.value, h)) {
        return false;
      }
      var sources, desired;
      ok, sources, desired := Plan(addresses, hosts);
      if !ok {
        return;
      }
      var outside: set<Address> := {};
      if scope.Some? {
        var alloc := Allocations(addresses);
        if alloc.None? {
          return false;
        }
        ok, outside := Preserve(State(routes, rules), scope.value, alloc.value);
        if !ok {
          return;
        }
        sources := Restrict(alloc.value, Families(desired) + Families(outside));
      } else {
        assert Families({}) == {};
      }
      ok := Apply(scope, addresses, hosts, devices, index, sources, outside);
    }

    /** The kernel calls of a planned pass, in order. */
    method Apply(scope: Scope, addresses: seq<Address>, hosts: seq<Address>, devices: map<Address, Device>,
                 index: Device, sources: Sources, outside: set<Address>)
      returns (ok: bool)
      requires Valid() && Plannable(addresses, hosts) && forall i | 0 <= i < |hosts| :: Owned(scope, hosts[i])
      requires outside == Outside(routes, scope) && Preservable(routes, rules, scope, Allocated(addresses))
      requires sources == Restrict(Allocated(addresses), Families(HostSet(hosts)) + Families(outside))
      modifies this`routes, this`rules, this`trace, this`faults
      ensures Valid() && old(trace) <= trace
      ensures AllSafe(trace[|old(trace)|..], old(Now()), scope, Allocated(addresses))
      ensures ok ==> Settled(Now(), old(Now()), scope, OnDevices(hosts, devices, index), Allocated(addresses))
      ensures faults == old(faults) ==> ok
    {
      ghost var start, alloc, n := Now(), Allocated(addresses), |trace|;
      PreservableIsSafe(start, scope, alloc);
      PlannedServes(addresses, hosts, start, scope, sources);
      ok := Change(hosts, devices, index, sources, outside, n, start, scope, alloc);
      if !ok {
        return;
      }
      FamiliesReached(addresses, hosts, start, scope, OnDevices(hosts, devices, index));
      ok := VerifySelectors(rules, sources);
    }

    /** Routes first, then selectors, then the routes nobody wants. */
    method Change(hosts: seq<Address>, devices: map<Address, Device>, index: Device, sources: Sources,
      outside: set<Address>,
                  ghost n: nat, ghost start: State, ghost scope: Scope, ghost alloc: Sources) returns (ok: bool)
      requires Kept(n, start, scope, alloc) && Serves(sources, start, scope, alloc) && routes == start.routes
      requires outside == Outside(routes, scope) && forall i | 0 <= i < |hosts| :: Owned(scope, hosts[i])
      modifies this`routes, this`rules, this`trace, this`faults
      ensures Kept(n, start, scope, alloc) && old(trace) <= trace
      ensures (if ok then faults == old(faults) else faults > old(faults))
      ensures ok ==> routes == Target(start.routes, scope, OnDevices(hosts, devices, index)) && Exactly(rules, sources)
    {
      var existing := routes.Keys;
      ok := Install(hosts, devices, index, n, start, scope, alloc);
      if !ok {
        return;
      }
      ok := Reselect(sources, n, start, scope, alloc);
      if !ok {
        return;
      }
      ok := Delete(existing - HostSet(hosts) - outside, n, start, scope, alloc);
      if ok {
        RoutesReached(start.routes, routes, scope, hosts, devices, index);
      }
    }

    /** Adds the missing selectors, then removes the stale ones. */
    method Reselect(sources: Sources, ghost n: nat, ghost start: State, ghost scope: Scope, ghost alloc: Sources)
      returns (ok: bool)
      requires Kept(n, start, scope, alloc) && Serves(sources, start, scope, alloc)
      modifies this`rules, this`trace, this`faults
      ensures Kept(n, start, scope, alloc) && old(trace) <= trace
      ensures (if ok then faults == old(faults) else faults > old(faults))
      ensures ok ==> Exactly(rules, sources)
    {
      var found, stale := Sort(rules, sources);
      CompletedSplits(rules, sources);
      ok := AddMissing(sources, found, n, start, scope, alloc);
      if !ok {
        return;
      }
      ok := DeleteStale(stale, sources, n, start, scope, alloc);
    }

    // ----- Withdrawal -----

    /**
     Removes the admitted hosts inside the scope and installs nothing. Routes go before
     selectors, so a selector is never missing while a route outside the scope needs it.
     */
    method Withdraw(scope: set<Prefix>, addresses: seq<Address>, admitted: seq<Address>) returns (ok: bool)
      requires Valid()
      modifies this`routes, this`rules, this`trace, this`faults
      ensures Valid() && old(trace) <= trace
      ensures AllSafe(trace[|old(trace)|..], old(Now()), Some(scope), Allocated(addresses))
      ensures ok ==> Settled(Now(), old(Now()), Some(scope), map[], Allocated(addresses))
      ensures Withdrawable(old(Now()), scope, addresses, admitted) && faults == old(faults) ==> ok
      ensures !Withdrawable(old(Now()), scope, addresses, admitted) ==> !ok && Now() == old(Now())
    {
      if !ValidScope(scope) || exists h :: h in admitted && !InScope(scope, h) {
        return false;
      }
      var alloc := Allocations(addresses);
      if alloc.None? {
        return false;
      }
      var planned, sources, permitted;
      planned, sources, permitted := Plan(addresses, admitted);
      if !planned || exists i ::
        0 <= i < |rules| && (rules[i].family !in alloc.value || rules[i].src != alloc.value[rules[i].family]) {
        return false;
      }
      var outside;
      ok, outside := Preserve(State(routes, rules), scope, alloc.value);
      if !ok || exists h :: h in routes && h !in outside && h !in permitted {
        return false;
      }
      ok := Remove(scope, addresses, outside);
    }

    /** The kernel calls of an admitted withdrawal, in order. */
    method Remove(scope: set<Prefix>, addresses: seq<Address>, outside: set<Address>) returns (ok: bool)
      requires Valid() && outside == Outside(routes, Some(scope))
      requires Preservable(routes, rules, Some(scope), Allocated(addresses))
      modifies this`routes, this`rules, this`trace, this`faults
      ensures Valid() && old(trace) <= trace
      ensures AllSafe(trace[|old(trace)|..], old(Now()), Some(scope), Allocated(addresses))
      ensures ok ==> Settled(Now(), old(Now()), Some(scope), map[], Allocated(addresses))
      ensures faults == old(faults) ==> ok
    {
      ghost var start, n := Now(), |trace|;
      var alloc := Allocated(addresses);
      PreservableIsSafe(start, Some(scope), alloc);
      ok := Delete(routes.Keys - outside, n, start, Some(scope), alloc);
      if !ok {
        return;
      }
      WithdrawnReached(addresses, start, routes, scope);
      ok := DropUnneeded(Restrict(alloc, Families(outside)), n, start, Some(scope), alloc);
    }

    /** Removes the selectors of families that no longer have a route. */
    method DropUnneeded(sources: Sources, ghost n: nat, ghost start: State, ghost scope: Scope, ghost alloc: Sources)
      returns (ok: bool)
      requires Kept(n, start, scope, alloc) && rules == start.rules
      requires Preservable(start.routes, start.rules, scope, alloc)
      requires sources == Restrict(alloc, Families(Outside(start.routes, scope)))
      modifies this`rules, this`trace, this`faults
      ensures Kept(n, start, scope, alloc) && old(trace) <= trace
      ensures (if ok then faults == old(faults) else faults > old(faults))
      ensures ok ==> Exactly(rules, sources)
    {
      var stale := Unneeded(rules, sources);
      forall h | !Owned(scope, h) && h in start.routes
        ensures h.family in sources && h.family in alloc
      {
        assert h in Outside(start.routes, scope) && h.family in Families(Outside(start.routes, scope));
        assert Selected(start.rules, h.family, alloc);
      }
      ok := DeleteStale(stale, sources, n, start, scope, alloc);
    }
  }
}
