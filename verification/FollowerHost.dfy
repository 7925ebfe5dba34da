/**
 The follower writer on a host that can lose its process between any two steps.

 A durable write replaces one file in one step and a kernel call changes one route. The class
 keeps every state a crash could expose; its invariant is that in each of them the record, or
 the legacy cache while nothing is staged, accounts for every kernel route, and that a fenced
 key is never claimed by the cache again.
 */
module FollowerHost {
  import opened Options
  import opened Prefixes
  import opened FollowerRecord
  import opened Order
  import opened SiteCaches

  /**
   What a host knows about itself: its mesh and key, its speaker if it has one, and how its
   forwarding cache projects to legacy routes.
   */
  datatype Site = Site(mesh: string, self: Root, speaker: Option<Setting>, projection: Forwarding -> Option<Evidence>)

  /** The projection names no key that the cache does not list. */
  ghost predicate Sound(site: Site) {
    forall f :: site.projection(f).Some? ==> site.projection(f).value.Keys <= Roots(f.data)
  }

  /** What survives a crash: the record file, the two cache files, and the kernel table. */
  datatype World = World(record: Option<Record>, files: Files, kernel: Routes)

  function Retired(w: World): set<Root> {
    if w.record.Some? then w.record.value.retired else {}
  }

  function Staged(w: World): Evidence {
    if w.record.Some? then w.record.value.routes else map[]
  }

  function Cached(files: Files): set<Root> {
    if files.forwarding.Some? then Roots(files.forwarding.value.data) else {}
  }

  /** The forwarding cache is this host's and can be projected. */
  predicate CacheAdmits(files: Files, site: Site) {
    && files.forwarding.Some? && files.forwarding.value.transit && files.forwarding.value.mesh == site.mesh
    && site.projection(files.forwarding.value).Some?
  }

  function Legacy(files: Files, site: Site): Evidence {
    if files.forwarding.Some? && site.projection(files.forwarding.value).Some?
    then site.projection(files.forwarding.value).value else map[]
  }

  ghost predicate Good(w: World, site: Site) {
    && (w.record.None? ==> Owned(w.kernel, Legacy(w.files, site)))
    && (w.record.Some? ==> Acceptable(w.record.value, site.self) && Owned(w.kernel, w.record.value.routes))
    && Retired(w) !! Cached(w.files)
  }

  ghost predicate AllGood(trace: seq<World>, site: Site) {
    forall i {:trigger Good(trace[i], site)} | 0 <= i < |trace| :: Good(trace[i], site)
  }

  ghost predicate Growing(trace: seq<World>) {
    forall i | 0 < i < |trace| :: Retired(trace[i - 1]) <= Retired(trace[i])
  }

  // ----- What the invariant means for a crash state -----

  /** Where roots keep apart, a recorded route belongs to exactly one root, whatever its gateway. */
  lemma ApartHasOneRoot(routes: Evidence, root: Root, d: Prefix, via: Address)
    requires RootsApart(routes) && Recorded(routes, root, d, via)
    ensures forall r, other | Recorded(routes, r, d, other) :: r == root
  {
    RecordedDestination(routes, root, d, via);
    forall r, other | Recorded(routes, r, d, other)
      ensures r == root
    {
      RecordedDestination(routes, r, d, other);
      OneOwner(routes, r, root, d);
    }
  }

  /** With a record every kernel route belongs to exactly one root. */
  lemma ExactlyOneRoot(w: World, site: Site, d: Prefix) returns (root: Root)
    requires Good(w, site) && w.record.Some? && d in w.kernel
    ensures Recorded(Staged(w), root, d, w.kernel[d])
    ensures forall r, via | Recorded(Staged(w), r, d, via) :: r == root
  {
    root :| Recorded(Staged(w), root, d, w.kernel[d]);
    ApartHasOneRoot(Staged(w), root, d, w.kernel[d]);
  }

  /** Exactly one root has this route. */
  ghost predicate HasOneRoot(routes: Evidence, d: Prefix, via: Address) {
    exists root :: Recorded(routes, root, d, via) && forall r | Recorded(routes, r, d, via) :: r == root
  }

  /** No two roots have the same route. */
  ghost predicate NothingShared(routes: Evidence) {
    forall a, b, d, via | Recorded(routes, a, d, via) && Recorded(routes, b, d, via) :: a == b
  }

  ghost predicate EachHasOneRoot(kernel: Routes, routes: Evidence) {
    forall d | d in kernel :: HasOneRoot(routes, d, kernel[d])
  }

  lemma OwnedHasOneRoot(kernel: Routes, routes: Evidence)
    requires Owned(kernel, routes) && NothingShared(routes)
    ensures EachHasOneRoot(kernel, routes)
  {
    forall d | d in kernel
      ensures HasOneRoot(routes, d, kernel[d])
    {
      var root :| Recorded(routes, root, d, kernel[d]);
    }
  }

  lemma TwoRootsAreNotOne(routes: Evidence, a: Root, b: Root, d: Prefix, via: Address)
    requires Recorded(routes, a, d, via) && Recorded(routes, b, d, via) && a != b
    ensures !HasOneRoot(routes, d, via)
  {
  }

  lemma RecordedIsOwned(kernel: Routes, routes: Evidence, root: Root)
    requires forall q | q in kernel :: Recorded(routes, root, q, kernel[q])
    ensures Owned(kernel, routes)
  {
  }

  lemma SharedTable(kernel: Routes, routes: Evidence, a: Root, b: Root, d: Prefix)
    requires d in kernel && forall q | q in kernel :: q == d
    requires Recorded(routes, a, d, kernel[d]) && Recorded(routes, b, d, kernel[d]) && a != b
    ensures Owned(kernel, routes) && !EachHasOneRoot(kernel, routes)
  {
    TwoRootsAreNotOne(routes, a, b, d, kernel[d]);
    RecordedIsOwned(kernel, routes, a);
  }

  lemma RecordlessIsGood(files: Files, site: Site, kernel: Routes)
    requires Owned(kernel, Legacy(files, site))
    ensures Good(World(None, files, kernel), site)
  {
  }

  lemma SharedIsCounted(files: Files, site: Site)
    requires !NothingShared(Legacy(files, site))
    ensures exists kernel: Routes ::
              Good(World(None, files, kernel), site) && !EachHasOneRoot(kernel, Legacy(files, site))
  {
    var legacy := Legacy(files, site);
    var a, b, d, via :| Recorded(legacy, a, d, via) && Recorded(legacy, b, d, via) && a != b;
    var kernel := OneRoute(d, via);
    SharedTable(kernel, legacy, a, b, d);
    RecordlessIsGood(files, site, kernel);
  }

  function OneRoute(d: Prefix, via: Address): (kernel: Routes)
    ensures forall q :: q in kernel <==> q == d
    ensures kernel[d] == via
  {
    map[d := via]
  }

  /**
   Before the first staging the caches alone decide: every table they account for has one root
   per route exactly when no two cached workers share a route.
   */
  lemma LegacyHasOneRootIff(files: Files, site: Site)
    ensures NothingShared(Legacy(files, site)) <==>
            forall kernel: Routes | Good(World(None, files, kernel), site) ::
              EachHasOneRoot(kernel, Legacy(files, site))
  {
    var legacy := Legacy(files, site);
    if NothingShared(legacy) {
      forall kernel: Routes | Good(World(None, files, kernel), site)
        ensures EachHasOneRoot(kernel, legacy)
      {
        OwnedHasOneRoot(kernel, legacy);
      }
    } else {
      SharedIsCounted(files, site);
    }
  }

  /** It follows for every destination and gateway when the projection could be staged. */
  lemma StageableHasOneRoot(w: World, site: Site, d: Prefix) returns (root: Root)
    requires Good(w, site) && w.record.None? && d in w.kernel && CanStage(w, Legacy(w.files, site), site.self)
    ensures Recorded(Legacy(w.files, site), root, d, w.kernel[d])
    ensures forall r, via | Recorded(Legacy(w.files, site), r, d, via) :: r == root
  {
    var legacy := Legacy(w.files, site);
    var merged := Merged(map[], legacy);
    assert forall r, v :: Has(legacy, r, v) <==> Has(merged, r, v);
    root :| Recorded(legacy, root, d, w.kernel[d]);
    assert Recorded(merged, root, d, w.kernel[d]);
    ApartHasOneRoot(merged, root, d, w.kernel[d]);
    assert forall r, via | Recorded(legacy, r, d, via) :: Recorded(merged, r, d, via);
  }

  /** A host whose one kernel route two cached workers claim. */
  lemma LegacyRouteCanBeShared() returns (w: World, site: Site, d: Prefix)
    ensures Good(w, site) && Sound(site) && w.record.None? && d in w.kernel
    ensures !HasOneRoot(Legacy(w.files, site), d, w.kernel[d])
    ensures !CanStage(w, Legacy(w.files, site), site.self)
  {
    d := Prefix(V4, [true]);
    var via := Address(V4, [false]);
    var data: Data := map[PeerField(PublicKey, "a") := "A", PeerField(PublicKey, "b") := "B"];
    var legacy: Evidence := map["A" := [map[d := via]], "B" := [map[d := via]]];
    site := Site("mesh", "self", None, (f: Forwarding) => if f.data == data then Some(legacy) else None);
    w := World(None, Files(Some(Forwarding("mesh", "key", true, data, {})), None), map[d := via]);
    assert HeldBy(data, "a", "A") && HeldBy(data, "b", "B");
    HeldIffListed(data, "A");
    HeldIffListed(data, "B");
    assert Has(legacy, "A", legacy["A"][0]) && Has(legacy, "B", legacy["B"][0]);
    assert Recorded(legacy, "A", d, via) && Recorded(legacy, "B", d, via);
    if CanStage(w, legacy, site.self) {
      var root := StageableHasOneRoot(w, site, d);
      assert false;
    }
  }

  // ----- Whole runs -----

  lemma {:induction false} RetiredGrows(trace: seq<World>, i: nat, j: nat)
    requires Growing(trace) && i <= j < |trace|
    ensures Retired(trace[i]) <= Retired(trace[j])
  {
    if i < j {
      RetiredGrows(trace, i, j - 1);
      assert Retired(trace[j - 1]) <= Retired(trace[j]);
    }
  }

  /** A key that has no evidence, no cache entry and no legacy route. */
  ghost predicate Gone(w: World, site: Site, root: Root) {
    root in Retired(w) && root !in Staged(w) && root !in Cached(w.files) && root !in Legacy(w.files, site)
  }

  lemma FencedIsGone(w: World, site: Site, root: Root)
    requires Good(w, site) && Sound(site) && root in Retired(w)
    ensures Gone(w, site, root)
  {
  }

  /** Once fenced, a key stays fenced, never has route evidence and is never cached again. */
  lemma FencedForever(trace: seq<World>, site: Site, root: Root, i: nat, j: nat)
    requires AllGood(trace, site) && Growing(trace) && Sound(site) && i <= j < |trace| && root in Retired(trace[i])
    ensures Gone(trace[j], site, root)
  {
    RetiredGrows(trace, i, j);
    assert Good(trace[j], site);
    FencedIsGone(trace[j], site, root);
  }

  /** Importing the legacy projection never meets a fenced key. */
  lemma FenceNeverBlocksStaging(w: World, site: Site, next: Evidence)
    requires Good(w, site) && Sound(site) && Stages(Staged(w), Legacy(w.files, site), next)
    ensures Retired(w) !! next.Keys
  {
    forall root | root in Retired(w)
      ensures root !in next
    {
      FencedIsGone(w, site, root);
      assert StagesAt(Staged(w), Legacy(w.files, site), next, root);
    }
  }

  lemma Extends(trace: seq<World>, w: World, site: Site)
    requires AllGood(trace, site) && Growing(trace) && Good(w, site)
    requires trace == [] || Retired(trace[|trace| - 1]) <= Retired(w)
    ensures AllGood(trace + [w], site) && Growing(trace + [w])
  {
  }

  // ----- When staging is accepted -----

  /** The evidence staging leads to, up to order and repetition. */
  function Merged(previous: Evidence, variants: Evidence): Evidence {
    map root | root in previous.Keys + variants.Keys && (root in previous || variants[root] != []) ::
      Variants(previous, root) + Variants(variants, root)
  }

  ghost predicate CanStage(w: World, variants: Evidence, self: Root) {
    Acceptable(Record(Merged(Staged(w), variants), Retired(w)), self)
  }

  ghost predicate SameEvidence(a: Evidence, b: Evidence) {
    && (forall root :: root in a <==> root in b)
    && (forall root, v :: Has(a, root, v) <==> Has(b, root, v))
  }

  /** Acceptance looks at roots and variants, not at their order. */
  lemma SameEvidenceSameVerdict(a: Evidence, b: Evidence, retired: set<Root>, self: Root)
    requires SameEvidence(a, b) && Acceptable(Record(a, retired), self)
    ensures Acceptable(Record(b, retired), self)
  {
    forall root | root in b
      ensures ValidVariants(b[root]) && Destinations(b[root]) == Destinations(a[root])
    {
      assert Has(a, root, a[root][0]) && Has(b, root, a[root][0]);
      forall i | 0 <= i < |b[root]|
        ensures ValidRoutes(b[root][i])
      {
        assert Has(b, root, b[root][i]) && Has(a, root, b[root][i]);
      }
      assert forall v :: v in a[root] <==> Has(a, root, v);
      assert forall v :: v in b[root] <==> Has(b, root, v);
      SameVariantsSameDestinations(a[root], b[root]);
    }
  }

  lemma StagesMerged(previous: Evidence, variants: Evidence, next: Evidence)
    requires Stages(previous, variants, next)
    ensures SameEvidence(Merged(previous, variants), next)
  {
    forall root
      ensures root in Merged(previous, variants) <==> root in next
      ensures forall v :: Has(Merged(previous, variants), root, v) <==> Has(next, root, v)
    {
      assert StagesAt(previous, variants, next, root);
    }
  }

  /** Whatever order staging yields, it is accepted exactly when the files say so. */
  lemma StagedIsAcceptableIff(w: World, variants: Evidence, next: Evidence, self: Root)
    requires Stages(Staged(w), variants, next)
    ensures Acceptable(Record(next, Retired(w)), self) <==> CanStage(w, variants, self)
  {
    var merged := Merged(Staged(w), variants);
    StagesMerged(Staged(w), variants, next);
    if CanStage(w, variants, self) {
      SameEvidenceSameVerdict(merged, next, Retired(w), self);
    }
    if Acceptable(Record(next, Retired(w)), self) {
      SameEvidenceSameVerdict(next, merged, Retired(w), self);
    }
  }

  // ----- Planning one installation -----

  function EvidenceFor(previous: Evidence, legacy: Evidence, desired: map<Root, Routes>): Evidence {
    map root | root in desired :: Variants(previous, root) + Variants(legacy, root) + [desired[root]]
  }

  function ScopeOf(evidence: Evidence): set<Prefix> {
    Union(evidence, evidence.Keys)
  }

  /** Every desired route of some root, and nothing else. */
  ghost predicate Collects(wanted: Routes, desired: map<Root, Routes>) {
    && (forall d | d in wanted :: exists root :: root in desired && d in desired[root] && desired[root][d] == wanted[d])
    && (forall root, d | root in desired && d in desired[root] :: d in wanted)
  }

  method Collect(desired: map<Root, Routes>) returns (wanted: Routes)
    ensures Collects(wanted, desired)
  {
    wanted := map[];
    var todo := desired.Keys;
    while todo != {}
      invariant todo <= desired.Keys
      invariant forall d | d in wanted :: exists root ::
                  root in desired && d in desired[root] && desired[root][d] == wanted[d]
      invariant forall root, d | root in desired.Keys - todo && d in desired[root] :: d in wanted
      decreases |todo|
    {
      var root :| root in todo;
      wanted := wanted + desired[root];
      todo := todo - {root};
    }
  }

  /** Every kernel route in scope is one the evidence knows. */
  ghost predicate Explained(kernel: Routes, scope: set<Prefix>, evidence: Evidence) {
    forall d | d in kernel && d in scope :: exists root :: Recorded(evidence, root, d, kernel[d])
  }

  method RouteIsRecorded(d: Prefix, via: Address, evidence: Evidence) returns (found: bool)
    ensures found <==> exists root :: Recorded(evidence, root, d, via)
  {
    var todo := evidence.Keys;
    while todo != {}
      invariant todo <= evidence.Keys
      invariant forall root | root !in todo :: !Recorded(evidence, root, d, via)
      decreases |todo|
    {
      var root :| root in todo;
      var variants := evidence[root];
      for i := 0 to |variants|
        invariant forall j | 0 <= j < i :: !(d in variants[j] && variants[j][d] == via)
      {
        if d in variants[i] && variants[i][d] == via {
          assert Has(evidence, root, variants[i]);
          assert Recorded(evidence, root, d, via);
          return true;
        }
      }
      assert !Recorded(evidence, root, d, via);
      todo := todo - {root};
    }
    return false;
  }

  /** Refuses to touch a table that holds a route in scope nobody recorded. */
  method Preflight(kernel: Routes, scope: set<Prefix>, evidence: Evidence) returns (ok: bool)
    ensures ok <==> Explained(kernel, scope, evidence)
  {
    var todo := kernel.Keys * scope;
    while todo != {}
      invariant todo <= kernel.Keys * scope
      invariant forall d | d in kernel.Keys * scope - todo :: exists root :: Recorded(evidence, root, d, kernel[d])
      decreases |todo|
    {
      var d :| d in todo;
      var found := RouteIsRecorded(d, kernel[d], evidence);
      if !found {
        return false;
      }
      todo := todo - {d};
    }
    return true;
  }

  predicate Verified(kernel: Routes, scope: set<Prefix>, wanted: Routes) {
    forall d | d in scope :: (d in kernel <==> d in wanted) && (d in kernel ==> kernel[d] == wanted[d])
  }

  /** Staging for an installation keeps each desired root's evidence and destinations. */
  lemma StagedEvidence(previous: Evidence, legacy: Evidence, desired: map<Root, Routes>, next: Evidence, root: Root)
    requires Stages(previous, legacy + EvidenceFor(previous, legacy, desired), next) && root in desired
    ensures root in next && Has(next, root, desired[root])
    ensures forall v :: v in next[root] <==> v in EvidenceFor(previous, legacy, desired)[root]
    ensures Destinations(next[root]) == Destinations(EvidenceFor(previous, legacy, desired)[root])
  {
    var evidence := EvidenceFor(previous, legacy, desired);
    var staging := legacy + evidence;
    assert StagesAt(previous, staging, next, root);
    assert staging[root] == evidence[root];
    assert desired[root] in evidence[root];
    assert forall v :: v in next[root] <==> v in evidence[root];
    SameVariantsSameDestinations(next[root], evidence[root]);
  }

  lemma SameVariantsSameDestinations(a: seq<Routes>, b: seq<Routes>)
    requires forall v :: v in a <==> v in b
    ensures Destinations(a) == Destinations(b)
  {
    forall d
      ensures d in Destinations(a) <==> d in Destinations(b)
    {
      if d in Destinations(a) {
        var i := DestinationsFrom(a, d);
        assert a[i] in a && a[i] in b;
        var j :| 0 <= j < |b| && b[j] == a[i];
        DestinationsHit(b, j);
      }
      if d in Destinations(b) {
        var i := DestinationsFrom(b, d);
        assert b[i] in b && b[i] in a;
        var j :| 0 <= j < |a| && a[j] == b[i];
        DestinationsHit(a, j);
      }
    }
  }

  /** After a verified installation only desired routes of the desired roots are left. */
  lemma VerifiedIsSettled(kernel: Routes, previous: Evidence, legacy: Evidence, desired: map<Root, Routes>,
                          next: Evidence, wanted: Routes)
    requires Stages(previous, legacy + EvidenceFor(previous, legacy, desired), next) && RootsApart(next)
    requires Collects(wanted, desired) && Verified(kernel, ScopeOf(EvidenceFor(previous, legacy, desired)), wanted)
    ensures Settled(kernel, next, desired)
  {
    var evidence := EvidenceFor(previous, legacy, desired);
    forall root, d | root in desired && root in next && d in kernel && d in Destinations(next[root])
      ensures d in desired[root] && kernel[d] == desired[root][d]
    {
      StagedEvidence(previous, legacy, desired, next, root);
      assert d in ScopeOf(evidence);
      var r :| r in desired && d in desired[r] && desired[r][d] == wanted[d];
      StagedEvidence(previous, legacy, desired, next, r);
      HasDestination(next, r, desired[r]);
      OneOwner(next, r, root, d);
    }
  }

  lemma RouteIsExplained(previous: Evidence, legacy: Evidence, desired: map<Root, Routes>, next: Evidence, r: Root,
                         d: Prefix, via: Address)
    requires Stages(previous, legacy + EvidenceFor(previous, legacy, desired), next) && RootsApart(next)
    requires r in desired && d in Destinations(EvidenceFor(previous, legacy, desired)[r])
    requires exists root :: Recorded(next, root, d, via)
    ensures Recorded(EvidenceFor(previous, legacy, desired), r, d, via)
  {
    StagedEvidence(previous, legacy, desired, next, r);
    var root :| Recorded(next, root, d, via);
    RecordedDestination(next, root, d, via);
    OneOwner(next, r, root, d);
    var v :| Has(next, root, v) && d in v && v[d] == via;
    assert Has(EvidenceFor(previous, legacy, desired), r, v);
  }

  /** The preflight cannot refuse a table that only this writer has touched. */
  lemma PreflightNeverBlocks(kernel: Routes, previous: Evidence, legacy: Evidence, desired: map<Root, Routes>,
                             next: Evidence)
    requires Stages(previous, legacy + EvidenceFor(previous, legacy, desired), next) && RootsApart(next)
    requires Owned(kernel, next)
    ensures Explained(kernel, ScopeOf(EvidenceFor(previous, legacy, desired)), EvidenceFor(previous, legacy, desired))
  {
    var evidence := EvidenceFor(previous, legacy, desired);
    forall d | d in kernel && d in ScopeOf(evidence)
      ensures exists root :: Recorded(evidence, root, d, kernel[d])
    {
      var r :| r in desired && d in Destinations(evidence[r]);
      RouteIsExplained(previous, legacy, desired, next, r, d, kernel[d]);
    }
  }

  /** The tables agree on every destination outside `scope`. */
  ghost predicate SameOutside(a: Routes, b: Routes, scope: set<Prefix>) {
    forall d | d !in scope :: (d in a <==> d in b) && (d in a ==> a[d] == b[d])
  }

  /** The record has exactly the desired variant of each desired root. */
  ghost predicate Holds(record: Option<Record>, desired: map<Root, Routes>) {
    record.Some? && forall root | root in desired :: OnlyVariant(record.value.routes, root, desired[root])
  }

  ghost predicate Within(a: Routes, b: Routes) {
    forall d | d in a :: d in b && b[d] == a[d]
  }

  /** Every desired route is in the kernel. */
  ghost predicate Delivered(kernel: Routes, desired: map<Root, Routes>) {
    forall root | root in desired :: Within(desired[root], kernel)
  }

  predicate OnlyVariant(routes: Evidence, root: Root, variant: Routes) {
    Variants(routes, root) == [variant]
  }

  lemma MoreEvidenceKeepsOwnership(kernel: Routes, a: Evidence, b: Evidence)
    requires Owned(kernel, a) && forall root, v :: Has(a, root, v) ==> Has(b, root, v)
    ensures Owned(kernel, b)
  {
    forall d | d in kernel
      ensures exists root :: Recorded(b, root, d, kernel[d])
    {
      var root :| Recorded(a, root, d, kernel[d]);
      var v :| Has(a, root, v) && d in v && v[d] == kernel[d];
      assert Has(b, root, v);
      assert Recorded(b, root, d, kernel[d]);
    }
  }

  lemma StagingCoversLegacy(kernel: Routes, previous: Evidence, legacy: Evidence, desired: map<Root, Routes>)
    requires Owned(kernel, legacy)
    ensures Owned(kernel, legacy + EvidenceFor(previous, legacy, desired))
  {
    var staging := legacy + EvidenceFor(previous, legacy, desired);
    assert forall root, v :: Has(legacy, root, v) ==> Has(staging, root, v);
    MoreEvidenceKeepsOwnership(kernel, legacy, staging);
  }

  /** Each wanted route was staged. */
  lemma WantedIsRecorded(previous: Evidence, legacy: Evidence, desired: map<Root, Routes>, next: Evidence,
                         wanted: Routes, d: Prefix)
    requires Stages(previous, legacy + EvidenceFor(previous, legacy, desired), next)
    requires Collects(wanted, desired) && d in wanted
    ensures exists root :: Recorded(next, root, d, wanted[d])
    ensures d in ScopeOf(EvidenceFor(previous, legacy, desired))
  {
    var evidence := EvidenceFor(previous, legacy, desired);
    var root :| root in desired && d in desired[root] && desired[root][d] == wanted[d];
    StagedEvidence(previous, legacy, desired, next, root);
    assert Recorded(next, root, d, wanted[d]);
    HasDestination(next, root, desired[root]);
  }

  /** A verified installation is what was asked for. */
  lemma VerifiedIsDelivered(kernel: Routes, previous: Evidence, legacy: Evidence, desired: map<Root, Routes>,
                            next: Evidence, wanted: Routes)
    requires Stages(previous, legacy + EvidenceFor(previous, legacy, desired), next)
    requires Collects(wanted, desired) && Verified(kernel, ScopeOf(EvidenceFor(previous, legacy, desired)), wanted)
    requires Settled(kernel, next, desired)
    ensures Delivered(kernel, desired)
  {
    forall root, d | root in desired && d in desired[root]
      ensures d in kernel && kernel[d] == desired[root][d]
    {
      WantedIsRecorded(previous, legacy, desired, next, wanted, d);
      StagedEvidence(previous, legacy, desired, next, root);
      HasDestination(next, root, desired[root]);
    }
  }

  lemma CompactionStaysSettled(kernel: Routes, staged: Record, desired: map<Root, Routes>)
    requires Settled(kernel, staged.routes, desired)
    requires forall root | root in desired :: Has(staged.routes, root, desired[root])
    ensures Settled(kernel, Compact(staged, desired).routes, desired) && Holds(Some(Compact(staged, desired)), desired)
  {
    forall root | root in desired
      ensures root in staged.routes
      ensures Destinations(Compact(staged, desired).routes[root]) <= Destinations(staged.routes[root])
    {
      assert Has(staged.routes, root, desired[root]);
      CompactDestinations(staged, desired, root);
    }
  }

  /** No evidence for a root outside `desired` is lost. */
  ghost predicate Keeps(before: Evidence, after: Evidence, desired: map<Root, Routes>) {
    forall root | root !in desired :: Variants(before, root) <= Variants(after, root)
  }

  lemma StagingKeepsVariants(previous: Evidence, variants: Evidence, next: Evidence, desired: map<Root, Routes>)
    requires Stages(previous, variants, next)
    ensures Keeps(previous, next, desired)
  {
    forall root | root !in desired
      ensures Variants(previous, root) <= Variants(next, root)
    {
      assert StagesAt(previous, variants, next, root);
    }
  }

  /** Every wanted route but those in `todo` has been replaced, and nothing else has changed. */
  ghost predicate ReplacedTo(kernel: Routes, before: Routes, wanted: Routes, todo: set<Prefix>) {
    && todo <= wanted.Keys
    && SameOutside(kernel, before, wanted.Keys - todo)
    && forall d | d in wanted && d !in todo :: d in kernel && kernel[d] == wanted[d]
  }

  lemma ReplacedNext(kernel: Routes, before: Routes, wanted: Routes, todo: set<Prefix>, d: Prefix)
    requires ReplacedTo(kernel, before, wanted, todo) && d in todo
    ensures ReplacedTo(kernel[d := wanted[d]], before, wanted, todo - {d})
  {
  }

  /** Routes may disappear at any time. */
  lemma FewerRoutes(w: World, site: Site, kernel: Routes)
    requires Good(w, site) && Within(kernel, w.kernel)
    ensures Good(w.(kernel := kernel), site)
  {
  }

  lemma InstalledIsGood(w: World, site: Site, d: Prefix, via: Address)
    requires Good(w, site) && w.record.Some? && exists root :: Recorded(w.record.value.routes, root, d, via)
    ensures Good(w.(kernel := w.kernel[d := via]), site)
  {
    var root :| Recorded(w.record.value.routes, root, d, via);
    InstallKeepsOwnership(w.kernel, w.record.value.routes, root, d, via);
  }

  /** Whether other live owners leave room for a root's variant. */
  type Admission = (Root, Routes) -> bool

  predicate AllAdmitted(evidence: Evidence, admit: Admission) {
    forall root | root in evidence :: forall i | 0 <= i < |evidence[root]| :: admit(root, evidence[root][i])
  }

  /** The table is explained and the record would be accepted. */
  ghost predicate EvidenceFits(w: World, site: Site, desired: map<Root, Routes>) {
    var legacy := Legacy(w.files, site);
    var evidence := EvidenceFor(Staged(w), legacy, desired);
    Explained(w.kernel, ScopeOf(evidence), evidence) && CanStage(w, legacy + evidence, site.self)
  }

  /** There is a forwarding cache: a transit node's, of this mesh, that projects to routes. */
  ghost predicate OwnCache(files: Files, site: Site) {
    match files.forwarding
    case None => false
    case Some(f) => f.mesh == site.mesh && f.transit && site.projection(f) != None
  }

  /** What an installation asks before it changes anything. */
  ghost predicate Applicable(w: World, site: Site, desired: map<Root, Routes>, admit: Admission) {
    && desired != map[] && OwnCache(w.files, site)
    && AllAdmitted(EvidenceFor(Staged(w), Legacy(w.files, site), desired), admit)
    && (site.speaker.Some? ==> Readable(w.files, site.speaker.value))
    && EvidenceFits(w, site, desired)
  }

  lemma DesiredIsStaged(previous: Evidence, legacy: Evidence, desired: map<Root, Routes>, next: Evidence)
    requires Stages(previous, legacy + EvidenceFor(previous, legacy, desired), next)
    ensures forall root | root in desired :: Has(next, root, desired[root])
  {
    forall root | root in desired
      ensures Has(next, root, desired[root])
    {
      StagedEvidence(previous, legacy, desired, next, root);
    }
  }

  /** A recorded root's own variants explain every route among its destinations. */
  lemma RootIsExplained(kernel: Routes, routes: Evidence, root: Root)
    requires Owned(kernel, routes) && RootsApart(routes) && root in routes
    ensures Explained(kernel, Destinations(routes[root]), map[root := routes[root]])
  {
    var evidence := map[root := routes[root]];
    forall d | d in kernel && d in Destinations(routes[root])
      ensures Recorded(evidence, root, d, kernel[d])
    {
      var r :| Recorded(routes, r, d, kernel[d]);
      RecordedDestination(routes, r, d, kernel[d]);
      OneOwner(routes, r, root, d);
      var v :| Has(routes, r, v) && d in v && v[d] == kernel[d];
      assert Has(evidence, root, v);
    }
  }

  // ----- When a withdrawal pass makes progress -----

  /** The caches can lose `root`: its one entry can be withdrawn, or it has none and the pair is readable. */
  ghost predicate LetsGo(files: Files, site: Site, root: Root) {
    && files.forwarding.Some?
    && match HolderOf(files.forwarding.value.data, root)
       case Nobody => site.speaker.Some? ==> Readable(files, site.speaker.value)
       case Only(name) => Target(files, site.mesh, true, name, root, site.speaker).Some?
       case Ambiguous => false
  }

  ghost predicate Removable(files: Files, site: Site, routes: Evidence, root: Root, admit: Admission) {
    (forall v | Has(routes, root, v) :: admit(root, v)) && LetsGo(files, site, root)
  }

  /** The first root in sorted order that is neither live nor reserved, with the projection staged. */
  ghost predicate Chosen(w: World, site: Site, excluded: set<Root>, root: Root) {
    IsFirst(Merged(Staged(w), Legacy(w.files, site)).Keys - excluded, root)
  }

  ghost predicate ChosenIsRemovable(w: World, site: Site, excluded: set<Root>, admit: Admission) {
    forall root | Chosen(w, site, excluded, root) ::
      Removable(w.files, site, Merged(Staged(w), Legacy(w.files, site)), root, admit)
  }

  lemma SameEvidenceSameRemoval(files: Files, site: Site, a: Evidence, b: Evidence, root: Root, admit: Admission)
    requires SameEvidence(a, b)
    ensures Removable(files, site, a, root, admit) <==> Removable(files, site, b, root, admit)
  {
  }

  /** What the files must say for a pass to succeed. */
  ghost predicate CanRetire(w: World, site: Site, live: set<Root>, reserved: set<Root>, admit: Admission) {
    var legacy := Legacy(w.files, site);
    && OwnCache(w.files, site) && Retired(w) !! live && CanStage(w, legacy, site.self)
    && ChosenIsRemovable(w, site, live + reserved, admit)
  }

  /** A pair half-written for one worker lets go of that worker's key and of no other. */
  lemma HalfLetsGoIff(start: Files, target: Files, site: Site, name: string, root: Root, other: Root)
    requires site.speaker.Some? && Target(start, site.mesh, true, name, root, site.speaker) == Some(target)
    requires start.forwarding.Some? && start.adverts.Some? && Named(start.forwarding.value.data, name)
    ensures LetsGo(Half(start, target), site, other) <==> other == root
  {
    var data := start.forwarding.value.data;
    WithdrawnIsOnlyHolder(start.forwarding.value, site.mesh, true, name, root);
    HolderIsUnique(data, root, Only(name));
    HalfIsUnreadable(start, target, site.mesh, true, name, root, site.speaker.value);
    RetryReachesTarget(start, target, site.mesh, true, name, root, site.speaker);
    var holder := HolderOf(data, other);
    HolderIsUnique(data, other, holder);
    if holder.Only? && holder.name != name {
      HalfRefusesOthers(start, target, site.mesh, true, name, root, site.speaker.value, holder.name, other);
    }
  }

  /** After a crash between the two cache writes a pass succeeds exactly when it meets the same root first. */
  lemma PassAfterCrashIff(w: World, site: Site, live: set<Root>, reserved: set<Root>, admit: Admission,
                          start: Files, target: Files, name: string, root: Root)
    requires site.speaker.Some? && Target(start, site.mesh, true, name, root, site.speaker) == Some(target)
    requires start.forwarding.Some? && start.adverts.Some? && Named(start.forwarding.value.data, name)
    requires w.files == Half(start, target)
    requires CacheAdmits(w.files, site) && Retired(w) !! live && CanStage(w, Legacy(w.files, site), site.self)
    requires AllAdmitted(Merged(Staged(w), Legacy(w.files, site)), admit)
    ensures CanRetire(w, site, live, reserved, admit) <==>
              forall first | Chosen(w, site, live + reserved, first) :: first == root
  {
    var merged := Merged(Staged(w), Legacy(w.files, site));
    forall first | Chosen(w, site, live + reserved, first)
      ensures Removable(w.files, site, merged, first, admit) <==> first == root
    {
      HalfLetsGoIff(start, target, site, name, root, first);
    }
  }

  /** While a pair is half-written, a host with a speaker refuses every installation. */
  lemma HalfBlocksInstallation(w: World, site: Site, desired: map<Root, Routes>, admit: Admission,
                               start: Files, target: Files, name: string, root: Root)
    requires site.speaker.Some? && Target(start, site.mesh, true, name, root, site.speaker) == Some(target)
    requires start.forwarding.Some? && start.adverts.Some? && Named(start.forwarding.value.data, name)
    requires w.files == Half(start, target)
    ensures !Applicable(w, site, desired, admit)
  {
    HalfIsUnreadable(start, target, site.mesh, true, name, root, site.speaker.value);
  }

  lemma StagedAgain(previous: Evidence, variants: Evidence, next: Evidence)
    requires Stages(previous, variants, next)
    ensures SameEvidence(Merged(previous, variants), Merged(next, variants))
    ensures Merged(previous, variants).Keys == Merged(next, variants).Keys
  {
    forall root
      ensures root in Merged(previous, variants) <==> root in Merged(next, variants)
      ensures forall v :: Has(Merged(previous, variants), root, v) <==> Has(Merged(next, variants), root, v)
    {
      assert StagesAt(previous, variants, next, root);
    }
  }

  /** Staging alone does not change the verdict, so a refused pass is refused again. */
  lemma StagingKeepsVerdict(w: World, site: Site, next: Evidence, live: set<Root>, reserved: set<Root>,
                            admit: Admission)
    requires Stages(Staged(w), Legacy(w.files, site), next)
    ensures var after := w.(record := Some(Record(next, Retired(w))));
            CanRetire(after, site, live, reserved, admit) <==> CanRetire(w, site, live, reserved, admit)
  {
    var after := w.(record := Some(Record(next, Retired(w))));
    var legacy := Legacy(w.files, site);
    StagedAgain(Staged(w), legacy, next);
    if CanStage(w, legacy, site.self) {
      SameEvidenceSameVerdict(Merged(Staged(w), legacy), Merged(next, legacy), Retired(w), site.self);
    }
    if CanStage(after, legacy, site.self) {
      SameEvidenceSameVerdict(Merged(next, legacy), Merged(Staged(w), legacy), Retired(w), site.self);
    }
    assert forall root :: Chosen(after, site, live + reserved, root) <==> Chosen(w, site, live + reserved, root);
  }

  lemma MergedWithNothing(previous: Evidence)
    ensures Merged(previous, map[]) == previous
  {
    forall root | root in previous
      ensures Merged(previous, map[])[root] == previous[root]
    {
      assert Variants(previous, root) + Variants(map[], root) == previous[root];
    }
  }

  /** Two workers with neighboring destinations. */
  lemma TwoWorkers() returns (routes: Evidence)
    ensures Acceptable(Record(routes, {}), "self")
    ensures routes.Keys == {"A", "B"}
  {
    var one, two := Prefix(V4, [true, true]), Prefix(V4, [true, false]);
    var via := Address(V4, [false]);
    var a, b: Routes := map[one := via], map[two := via];
    assert one in a && two in b;
    assert ValidRoutes(a) && ValidRoutes(b);
    routes := map["A" := [a], "B" := [b]];
    assert [a][..0] == [] && [b][..0] == [];
    assert Destinations([a]) == a.Keys == {one};
    assert Destinations([b]) == b.Keys == {two};
    assert one.bits[1] != two.bits[1];
    assert Apart({one}, {two}) && Apart({two}, {one});
  }

  /** Two listed workers, with the advertisement file already written for the second. */
  lemma HalfWithdrawn() returns (start: Files, target: Files, setting: Setting)
    ensures Target(start, "mesh", true, "b", "B", Some(setting)) == Some(target)
    ensures start.adverts.Some? && start.forwarding.Some? && Named(start.forwarding.value.data, "b")
    ensures start.forwarding.value.transit && start.forwarding.value.mesh == "mesh"
  {
    var data: Data := map[PeerField(PublicKey, "a") := "A", PeerField(PublicKey, "b") := "B"];
    setting := Setting("speaker", 179, (d: Data) => Some({}));
    var forwarding := Forwarding("mesh", "key", true, data, {});
    start := Files(Some(forwarding), Some(Adverts("mesh", "key", Render(data), "speaker", 179, [])));
    assert PeerField(PublicKey, "b") in data && Named(data, "b");
    assert Without(data, "b") == map[PeerField(PublicKey, "a") := "A"];
    assert !ListedElsewhere(Without(data, "b"), "B");
    assert NextForwarding(forwarding, "mesh", true, "b", "B").Some?;
    target := Target(start, "mesh", true, "b", "B", Some(setting)).value;
  }

  /** A host on which a crash for one worker makes every later pass fail: another worker sorts before it. */
  lemma HalfPairStarves() returns (w: World, site: Site, admit: Admission)
    ensures Good(w, site) && Sound(site) && CacheAdmits(w.files, site) && Retired(w) == {}
    ensures CanStage(w, Legacy(w.files, site), site.self)
    ensures AllAdmitted(Merged(Staged(w), Legacy(w.files, site)), admit)
    ensures !CanRetire(w, site, {}, {}, admit)
  {
    var routes := TwoWorkers();
    var start, target, setting := HalfWithdrawn();
    site := Site("mesh", "self", Some(setting), (f: Forwarding) => Some(map[]));
    admit := (root, variant) => true;
    w := World(Some(Record(routes, {})), Half(start, target), map[]);
    MergedWithNothing(routes);
    assert Less("A", "B") && routes.Keys - ({} + {}) == {"A", "B"};
    assert Chosen(w, site, {} + {}, "A");
    PassAfterCrashIff(w, site, {}, {}, admit, start, target, "b", "B");
  }

  // ----- The writer -----

  /** What the caches may look like while `root` is withdrawn. */
  ghost predicate Withdrawing(now: Files, before: Files, site: Site, root: Root) {
    || now == before
    || exists name, target ::
         && Target(before, site.mesh, true, name, root, site.speaker) == Some(target)
         && (now == Half(before, target) || now == target)
  }

  /** The caches either no longer list `root` or can be replaced by `plan`, which does not. */
  ghost predicate Plans(files: Files, site: Site, root: Root, plan: Option<Files>) {
    match plan
    case None => root !in Cached(files)
    case Some(target) => exists name ::
      files.forwarding.Some? && Target(files, site.mesh, true, name, root, site.speaker) == Some(target)
  }

  lemma PlanLosesRoot(files: Files, site: Site, root: Root, plan: Files)
    requires Plans(files, site, root, Some(plan))
    ensures plan.forwarding.Some? && root !in Cached(plan) && Cached(plan) <= Cached(files)
    ensures plan.adverts.Some? <==> files.adverts.Some?
    ensures Withdrawing(Half(files, plan), files, site, root) && Withdrawing(plan, files, site, root)
  {
    var name :| Target(files, site.mesh, true, name, root, site.speaker) == Some(plan);
    WithdrawnIsOnlyHolder(files.forwarding.value, site.mesh, true, name, root);
  }

  /** A smaller forwarding cache is safe once a record exists. */
  lemma FewerCached(w: World, site: Site, files: Files)
    requires Good(w, site) && w.record.Some? && Cached(files) <= Cached(w.files)
    ensures Good(w.(files := files), site)
  {
  }

  /** Nothing but the first is chosen. */
  lemma OnlyChosen(w: World, site: Site, excluded: set<Root>, first: Option<Root>)
    requires first.None? ==> Merged(Staged(w), Legacy(w.files, site)).Keys <= excluded
    requires first.Some? ==> Chosen(w, site, excluded, first.value)
    ensures forall root | Chosen(w, site, excluded, root) :: first == Some(root)
  {
    forall root | Chosen(w, site, excluded, root)
      ensures first == Some(root)
    {
      if first.Some? {
        FirstIsUnique(Merged(Staged(w), Legacy(w.files, site)).Keys - excluded, root, first.value);
      }
    }
  }

  /** The merged evidence without the fenced root. */
  ghost predicate Retains(routes: Evidence, w: World, site: Site, fenced: Option<Root>) {
    var merged := Merged(Staged(w), Legacy(w.files, site));
    SameEvidence(routes, if fenced.Some? then merged - {fenced.value} else merged)
  }

  lemma FencingRetains(routes: Evidence, w: World, site: Site, root: Root)
    requires Retains(routes, w, site, None)
    ensures Retains(routes - {root}, w, site, Some(root))
  {
    var merged := Merged(Staged(w), Legacy(w.files, site));
    forall r, v
      ensures Has(routes - {root}, r, v) <==> Has(merged - {root}, r, v)
    {
      assert Has(routes, r, v) <==> Has(merged, r, v);
    }
  }

  /** Only destinations of the chosen root have lost their routes. */
  ghost predicate ClearsChosen(now: Routes, before: Routes, w: World, site: Site, excluded: set<Root>) {
    && Within(now, before)
    && forall d | d in before && d !in now :: exists root ::
         && root in Merged(Staged(w), Legacy(w.files, site)) && Chosen(w, site, excluded, root)
         && d in Destinations(Merged(Staged(w), Legacy(w.files, site))[root])
  }

  lemma ClearingRootClearsChosen(now: Routes, before: Routes, w: World, site: Site, excluded: set<Root>, root: Root,
                                 routes: Evidence)
    requires Retains(routes, w, site, None) && root in routes && Chosen(w, site, excluded, root)
    requires Within(now, before) && SameOutside(now, before, Destinations(routes[root]))
    ensures ClearsChosen(now, before, w, site, excluded)
  {
    var merged := Merged(Staged(w), Legacy(w.files, site));
    assert forall v :: v in merged[root] <==> Has(merged, root, v);
    assert forall v :: v in routes[root] <==> Has(routes, root, v);
    SameVariantsSameDestinations(merged[root], routes[root]);
  }

  /** What a client may ask of the writer, in any order. */
  datatype Call =
    | Installing(desired: map<Root, Routes>, admit: Admission)
    | Retiring(live: set<Root>, reserved: set<Root>, admit: Admission)
    | Rebooting

  class Writer {
    const site: Site
    var record: Option<Record>
    var files: Files
    var kernel: Routes
    /** Every state a crash could have exposed so far, the present one last. */
    ghost var trace: seq<World>
    /** How many writes, kernel calls or renewals of authority have failed. */
    ghost var faults: nat

    ghost function Now(): World
      reads this
    {
      World(record, files, kernel)
    }

    ghost predicate Valid()
      reads this
    {
      trace != [] && trace[|trace| - 1] == Now() && AllGood(trace, site) && Growing(trace) && Sound(site)
    }

    /** A host whose kernel routes all come from its record or, before the first staging, its cache. */
    constructor (site: Site, w: World)
      requires Good(w, site) && Sound(site)
      ensures this.site == site && Now() == w && Valid() && trace == [w]
    {
      this.site := site;
      record, files, kernel := w.record, w.files, w.kernel;
      faults := 0;
      trace := [w];
    }

    // ----- Single steps -----

    /** Makes a good world the present one. */
    ghost method Note(next: World)
      requires AllGood(trace, site) && Growing(trace) && Sound(site) && Good(next, site) && next == Now()
      requires trace != [] ==> Retired(trace[|trace| - 1]) <= Retired(next)
      modifies this`trace
      ensures Valid() && trace == old(trace) + [next]
    {
      Extends(trace, next, site);
      trace := trace + [next];
    }

    /** Live authority, or the absence of native receiver state, may be refused at any renewal. */
    method Renew() returns (ok: bool)
      modifies this`faults
      ensures if ok then faults == old(faults) else faults > old(faults)
    {
      ok := *;
      if !ok {
        faults := faults + 1;
      }
    }

    /** A durable write that may fail before it takes effect. */
    method WriteRecord(next: Record) returns (ok: bool)
      requires Valid() && Good(Now().(record := Some(next)), site) && Retired(Now()) <= next.retired
      modifies this`record, this`trace, this`faults
      ensures Valid() && trace == if ok then old(trace) + [Now()] else old(trace)
      ensures record == if ok then Some(next) else old(record)
      ensures if ok then faults == old(faults) else faults > old(faults)
    {
      ghost var w := Now().(record := Some(next));
      ok := *;
      if ok {
        record := Some(next);
        Note(w);
      } else {
        faults := faults + 1;
      }
    }

    method ReplaceRoute(d: Prefix, via: Address) returns (ok: bool)
      requires Valid() && Good(Now().(kernel := kernel[d := via]), site)
      modifies this`kernel, this`trace, this`faults
      ensures Valid() && trace == if ok then old(trace) + [Now()] else old(trace)
      ensures kernel == if ok then old(kernel)[d := via] else old(kernel)
      ensures if ok then faults == old(faults) else faults > old(faults)
    {
      ghost var w := Now().(kernel := kernel[d := via]);
      ok := *;
      if ok {
        kernel := kernel[d := via];
        Note(w);
      } else {
        faults := faults + 1;
      }
    }

    method DeleteRoute(d: Prefix) returns (ok: bool)
      requires Valid()
      modifies this`kernel, this`trace, this`faults
      ensures Valid() && trace == if ok then old(trace) + [Now()] else old(trace)
      ensures kernel == if ok then old(kernel) - {d} else old(kernel)
      ensures if ok then faults == old(faults) else faults > old(faults)
    {
      ghost var w := Now().(kernel := kernel - {d});
      assert Good(Now(), site);
      FewerRoutes(Now(), site, w.kernel);
      ok := *;
      if ok {
        kernel := kernel - {d};
        Note(w);
      } else {
        faults := faults + 1;
      }
    }

    /** One of the two cache files is replaced; the forwarding cache may only lose workers. */
    method WriteCache(next: Files) returns (ok: bool)
      requires Valid() && record.Some? && Cached(next) <= Cached(files)
      requires next == files.(adverts := next.adverts) || next == files.(forwarding := next.forwarding)
      modifies this`files, this`trace, this`faults
      ensures Valid() && trace == if ok then old(trace) + [Now()] else old(trace)
      ensures files == if ok then next else old(files)
      ensures if ok then faults == old(faults) else faults > old(faults)
    {
      ghost var w := Now().(files := next);
      assert Good(Now(), site);
      FewerCached(Now(), site, next);
      ok := *;
      if ok {
        files := next;
        Note(w);
      } else {
        faults := faults + 1;
      }
    }

    /** A reboot: the kernel starts empty, the files are as they were. */
    method Reboot()
      requires Valid()
      modifies this`kernel, this`trace
      ensures Valid() && trace == old(trace) + [Now()] && kernel == map[]
    {
      ghost var w := Now().(kernel := map[]);
      assert Good(Now(), site);
      FewerRoutes(Now(), site, map[]);
      kernel := map[];
      Note(w);
    }

    // ----- The record file -----

    /** Writes `next` only over the record the caller read, and never forgets a fence. */
    method Replace(previous: Option<Record>, next: Record) returns (ok: bool)
      requires Valid()
      requires previous == record && Acceptable(next, site.self) && Retired(Now()) <= next.retired ==>
                 Good(Now().(record := Some(next)), site)
      modifies this`record, this`trace, this`faults
      ensures Valid() && trace == if ok then old(trace) + [Now()] else old(trace)
      ensures ok ==> record == Some(next) && faults == old(faults)
      ensures ok ==> previous == old(record) && Acceptable(next, site.self) && old(Retired(Now())) <= Retired(Now())
      ensures !ok ==> record == old(record)
      ensures !ok && previous == old(record) && Acceptable(next, site.self) && old(Retired(Now())) <= next.retired ==>
                faults > old(faults)
    {
      ok := Decode(next, site.self);
      if !ok || previous != record || (previous.Some? && !(previous.value.retired <= next.retired)) {
        return false;
      }
      ok := WriteRecord(next);
    }

    /** Stages `variants`, which must cover the legacy projection, over the current record. */
    method Stage(variants: Evidence) returns (ok: bool)
      requires Valid()
      requires record.None? ==> Owned(kernel, variants)
      modifies this`record, this`trace, this`faults
      ensures Valid() && trace == if ok then old(trace) + [Now()] else old(trace)
      ensures Retired(Now()) == old(Retired(Now()))
      ensures ok ==> record.Some? && Stages(old(Staged(Now())), variants, record.value.routes)
      ensures ok ==> faults == old(faults) && CanStage(old(Now()), variants, site.self)
      ensures !ok ==> record == old(record)
      ensures !ok && CanStage(old(Now()), variants, site.self) ==> faults > old(faults)
    {
      assert Good(Now(), site);
      var previous := if record.Some? then record.value.routes else map[];
      var routes := StageVariants(previous, variants);
      StagingKeepsOwnership(kernel, previous, variants, routes);
      StagedIsAcceptableIff(Now(), variants, routes, site.self);
      ok := Replace(record, Record(routes, if record.Some? then record.value.retired else {}));
    }

    // ----- Installing -----

    /** Replaces each wanted route, then prunes what else is in scope. */
    method Install(scope: set<Prefix>, wanted: Routes) returns (ok: bool)
      requires Valid() && record.Some?
      requires forall d | d in wanted :: d in scope && exists root :: Recorded(record.value.routes, root, d, wanted[d])
      modifies this`kernel, this`trace, this`faults
      ensures Valid() && old(trace) <= trace
      ensures SameOutside(kernel, old(kernel), scope)
      ensures forall d | d in wanted && d in old(kernel) :: d in kernel
      ensures ok ==> Verified(kernel, scope, wanted)
      ensures if ok then faults == old(faults) else faults > old(faults)
    {
      ok := ReplaceAll(wanted);
      if !ok {
        return;
      }
      ok := Prune(scope, wanted);
    }

    method ReplaceAll(wanted: Routes) returns (ok: bool)
      requires Valid() && record.Some?
      requires forall d | d in wanted :: exists root :: Recorded(record.value.routes, root, d, wanted[d])
      modifies this`kernel, this`trace, this`faults
      ensures Valid() && old(trace) <= trace
      ensures SameOutside(kernel, old(kernel), wanted.Keys)
      ensures forall d | d in old(kernel) :: d in kernel
      ensures ok ==> Within(wanted, kernel)
      ensures if ok then faults == old(faults) else faults > old(faults)
    {
      var todo := wanted.Keys;
      while todo != {}
        invariant Valid() && old(trace) <= trace && faults == old(faults)
        invariant ReplacedTo(kernel, old(kernel), wanted, todo)
        decreases |todo|
      {
        var d :| d in todo;
        ReplacedNext(kernel, old(kernel), wanted, todo, d);
        ok := ReplaceWanted(d, wanted);
        if !ok {
          return;
        }
        todo := todo - {d};
      }
      ok := true;
    }

    method ReplaceWanted(d: Prefix, wanted: Routes) returns (ok: bool)
      requires Valid() && record.Some? && d in wanted
      requires forall q | q in wanted :: exists root :: Recorded(record.value.routes, root, q, wanted[q])
      modifies this`kernel, this`trace, this`faults
      ensures Valid() && trace == if ok then old(trace) + [Now()] else old(trace)
      ensures kernel == if ok then old(kernel)[d := wanted[d]] else old(kernel)
      ensures if ok then faults == old(faults) else faults > old(faults)
    {
      assert Good(Now(), site);
      InstalledIsGood(Now(), site, d, wanted[d]);
      ok := ReplaceRoute(d, wanted[d]);
    }

    method Prune(scope: set<Prefix>, wanted: Routes) returns (ok: bool)
      requires Valid()
      modifies this`kernel, this`trace, this`faults
      ensures Valid() && old(trace) <= trace
      ensures SameOutside(kernel, old(kernel), scope - wanted.Keys)
      ensures Within(kernel, old(kernel))
      ensures ok ==> forall d | d in scope && d !in wanted :: d !in kernel
      ensures if ok then faults == old(faults) else faults > old(faults)
    {
      var todo := kernel.Keys * scope - wanted.Keys;
      while todo != {}
        invariant Valid() && old(trace) <= trace && faults == old(faults) && todo <= scope - wanted.Keys
        invariant SameOutside(kernel, old(kernel), scope - wanted.Keys)
        invariant Within(kernel, old(kernel))
        invariant forall d | d in scope && d !in wanted && d in kernel :: d in todo
        decreases |todo|
      {
        var d :| d in todo;
        ok := DeleteRoute(d);
        if !ok {
          return;
        }
        todo := todo - {d};
      }
      ok := true;
    }

    /**
     One installation: stage, preflight, install, verify, compact. It may stop after any step.
     On success the desired roots have exactly their desired routes, in the record and in the
     kernel, and no other kernel route has changed.
     */
    method Apply(desired: map<Root, Routes>, admit: Admission) returns (ok: bool)
      requires Valid()
      modifies this`record, this`kernel, this`trace, this`faults
      ensures Valid() && old(trace) <= trace
      ensures Retired(Now()) == old(Retired(Now()))
      ensures SameOutside(kernel, old(kernel), ScopeOf(EvidenceFor(old(Staged(Now())), Legacy(files, site), desired)))
      ensures forall root, d | root in desired && d in desired[root] && d in old(kernel) :: d in kernel
      ensures Keeps(old(Staged(Now())), Staged(Now()), desired)
      ensures ok ==> Holds(record, desired)
      ensures ok ==> Delivered(kernel, desired)
      ensures ok ==> Settled(kernel, record.value.routes, desired)
      ensures ok ==> faults == old(faults) && Applicable(old(Now()), site, desired, admit)
      ensures faults == old(faults) && Applicable(old(Now()), site, desired, admit) ==> ok
    {
      var previous, wanted;
      ok, previous, wanted := Prepare(desired, admit);
      if ok {
        ok := ApplyStaged(previous, desired, wanted);
      }
    }

    /** Puts the evidence for `desired` on disk before anything else changes. */
    method Prepare(desired: map<Root, Routes>, admit: Admission) returns (ok: bool, previous: Evidence, wanted: Routes)
      requires Valid()
      modifies this`record, this`trace, this`faults
      ensures Valid() && old(trace) <= trace && previous == old(Staged(Now()))
      ensures Retired(Now()) == old(Retired(Now()))
      ensures Collects(wanted, desired)
      ensures ok ==> record.Some?
      ensures ok ==>
                Stages(previous, Legacy(files, site) + EvidenceFor(previous, Legacy(files, site), desired),
                Staged(Now()))
      ensures Keeps(previous, Staged(Now()), desired)
      ensures ok ==> faults == old(faults) && Applicable(old(Now()), site, desired, admit)
      ensures !ok && Applicable(old(Now()), site, desired, admit) ==> faults > old(faults)
    {
      previous := if record.Some? then record.value.routes else map[];
      wanted := Collect(desired);
      if desired == map[] || !CacheAdmits(files, site) {
        return false, previous, wanted;
      }
      var legacy := site.projection(files.forwarding.value).value;
      var evidence := EvidenceFor(previous, legacy, desired);
      if !AllAdmitted(evidence, admit) || (site.speaker.Some? && !Readable(files, site.speaker.value)) {
        return false, previous, wanted;
      }
      ok := Renew();
      if ok {
        ok := StageEvidence(previous, legacy, desired);
      }
    }

    method StageEvidence(previous: Evidence, legacy: Evidence, desired: map<Root, Routes>) returns (ok: bool)
      requires Valid() && previous == Staged(Now()) && legacy == Legacy(files, site)
      modifies this`record, this`trace, this`faults
      ensures Valid() && old(trace) <= trace
      ensures Retired(Now()) == old(Retired(Now()))
      ensures ok ==> record.Some? && Stages(previous, legacy + EvidenceFor(previous, legacy, desired), Staged(Now()))
      ensures Keeps(previous, Staged(Now()), desired)
      ensures ok ==> faults == old(faults) && EvidenceFits(old(Now()), site, desired)
      ensures !ok && EvidenceFits(old(Now()), site, desired) ==> faults > old(faults)
    {
      var evidence := EvidenceFor(previous, legacy, desired);
      ok := Preflight(kernel, ScopeOf(evidence), evidence);
      if !ok {
        return;
      }
      if record.None? {
        assert Good(Now(), site);
        StagingCoversLegacy(kernel, previous, legacy, desired);
      }
      ok := Stage(legacy + evidence);
      if ok {
        StagingKeepsVariants(previous, legacy + evidence, record.value.routes, desired);
      }
    }

    /** What follows once the evidence for `desired` is on disk. */
    method ApplyStaged(previous: Evidence, desired: map<Root, Routes>, wanted: Routes) returns (ok: bool)
      requires Valid() && record.Some? && Collects(wanted, desired)
      requires Stages(previous, Legacy(files, site) + EvidenceFor(previous, Legacy(files, site), desired),
                 record.value.routes)
      modifies this`record, this`kernel, this`trace, this`faults
      ensures Valid() && old(trace) <= trace
      ensures Retired(Now()) == old(Retired(Now()))
      ensures SameOutside(kernel, old(kernel), ScopeOf(EvidenceFor(previous, Legacy(files, site), desired)))
      ensures forall d | d in wanted && d in old(kernel) :: d in kernel
      ensures record.Some? && Keeps(old(record.value).routes, record.value.routes, desired)
      ensures ok ==> Holds(record, desired)
      ensures ok ==> Delivered(kernel, desired)
      ensures ok ==> Settled(kernel, record.value.routes, desired)
      ensures if ok then faults == old(faults) else faults > old(faults)
    {
      ok := Renew();
      if !ok {
        return;
      }
      ok := InstallStaged(previous, desired, wanted);
      if !ok {
        return;
      }
      DesiredIsStaged(previous, Legacy(files, site), desired, record.value.routes);
      ok := Renew();
      if !ok {
        return;
      }
      ok := CompactStaged(desired);
    }

    /** Preflight, install and verify against the staged evidence. */
    method InstallStaged(previous: Evidence, desired: map<Root, Routes>, wanted: Routes) returns (ok: bool)
      requires Valid() && record.Some? && Collects(wanted, desired)
      requires Stages(previous, Legacy(files, site) + EvidenceFor(previous, Legacy(files, site), desired),
                 record.value.routes)
      modifies this`kernel, this`trace, this`faults
      ensures Valid() && old(trace) <= trace
      ensures if ok then faults == old(faults) else faults > old(faults)
      ensures SameOutside(kernel, old(kernel), ScopeOf(EvidenceFor(previous, Legacy(files, site), desired)))
      ensures forall d | d in wanted && d in old(kernel) :: d in kernel
      ensures ok ==> Delivered(kernel, desired) && Settled(kernel, record.value.routes, desired)
    {
      var legacy := Legacy(files, site);
      var evidence := EvidenceFor(previous, legacy, desired);
      var scope := ScopeOf(evidence);
      ghost var routes := record.value.routes;
      assert RootsApart(routes) && Owned(kernel, routes) by { assert Good(Now(), site); }
      PreflightNeverBlocks(kernel, previous, legacy, desired, routes);
      ok := Preflight(kernel, scope, evidence);
      if !ok {
        return;
      }
      forall d | d in wanted
        ensures d in scope && exists root :: Recorded(routes, root, d, wanted[d])
      {
        WantedIsRecorded(previous, legacy, desired, routes, wanted, d);
      }
      ok := Install(scope, wanted);
      if !ok {
        return;
      }
      ok := Verified(kernel, scope, wanted);
      VerifiedIsSettled(kernel, previous, legacy, desired, routes, wanted);
      VerifiedIsDelivered(kernel, previous, legacy, desired, routes, wanted);
    }

    method CompactStaged(desired: map<Root, Routes>) returns (ok: bool)
      requires Valid() && record.Some? && Settled(kernel, record.value.routes, desired)
      modifies this`record, this`trace, this`faults
      ensures Valid() && old(trace) <= trace
      ensures Retired(Now()) == old(Retired(Now()))
      ensures record.Some? && Keeps(old(record.value).routes, record.value.routes, desired)
      ensures ok ==> Holds(record, desired) && Settled(kernel, record.value.routes, desired)
      ensures !ok ==> record == old(record)
      ensures ok ==> faults == old(faults)
      ensures !ok && (forall root | root in desired :: Has(old(record.value).routes, root, desired[root])) ==>
                faults > old(faults)
    {
      assert Good(Now(), site);
      var next := Finish(record.value, desired);
      if next.None? {
        return false;
      }
      CompactionKeepsOwnership(kernel, record.value, desired);
      CompactionIsAcceptable(record.value, desired, site.self);
      CompactionStaysSettled(kernel, record.value, desired);
      ok := Replace(record, next.value);
    }

    // ----- Withdrawing -----

    /**
     One pass of ordinary withdrawal. At most one root is fenced, the first in sorted order that
     may be: its routes are proved absent, then the caches lose it, and only then is the fence
     written. Unless a step fails it succeeds exactly when the files allow it, and a refusal
     changes neither the caches nor the kernel.
     */
    method Retire(live: set<Root>, reserved: set<Root>, admit: Admission) returns (ok: bool, fenced: Option<Root>)
      requires Valid()
      modifies this`record, this`files, this`kernel, this`trace, this`faults
      ensures Valid() && old(trace) <= trace
      ensures fenced.Some? ==>
                ok && Chosen(old(Now()), site, live + reserved, fenced.value) && fenced.value !in Cached(files)
      ensures Retired(Now()) == old(Retired(Now())) + (if fenced.Some? then {fenced.value} else {})
      ensures ok && fenced.None? ==> record.Some? && record.value.routes.Keys <= live + reserved
      ensures ClearsChosen(kernel, old(kernel), old(Now()), site, live + reserved)
      ensures record == old(record) || Retains(Staged(Now()), old(Now()), site, fenced)
      ensures ok ==> Retains(Staged(Now()), old(Now()), site, fenced)
      ensures files == old(files) || exists root ::
                Chosen(old(Now()), site, live + reserved, root) && Withdrawing(files, old(files), site, root)
      ensures ok ==> faults == old(faults) && CanRetire(old(Now()), site, live, reserved, admit)
      ensures faults == old(faults) && CanRetire(old(Now()), site, live, reserved, admit) ==> ok
      ensures faults == old(faults) && !ok ==> files == old(files) && kernel == old(kernel)
    {
      fenced := None;
      if !CacheAdmits(files, site) || (record.Some? && !(record.value.retired !! live)) {
        return false, None;
      }
      var legacy := site.projection(files.forwarding.value).value;
      ok := Renew();
      if !ok {
        return;
      }
      assert Good(Now(), site);
      ghost var before := Now();
      ok := Stage(legacy);
      if ok {
        ok, fenced := RetireFirst(before, live + reserved, admit);
      }
    }

    /** What follows once the legacy projection is on disk. */
    method RetireFirst(ghost before: World, excluded: set<Root>, admit: Admission)
      returns (ok: bool, fenced: Option<Root>)
      requires Valid() && record.Some? && before.files == files
      requires Stages(Staged(before), Legacy(before.files, site), record.value.routes)
      modifies this`record, this`files, this`kernel, this`trace, this`faults
      ensures Valid() && old(trace) <= trace && record.Some?
      ensures fenced.Some? ==> ok && Chosen(before, site, excluded, fenced.value) && fenced.value !in Cached(files)
      ensures Retired(Now()) == old(Retired(Now())) + (if fenced.Some? then {fenced.value} else {})
      ensures ok && fenced.None? ==> record.value.routes.Keys <= excluded
      ensures ClearsChosen(kernel, old(kernel), before, site, excluded)
      ensures Retains(Staged(Now()), before, site, fenced)
      ensures files == old(files) || exists root ::
                Chosen(before, site, excluded, root) && Withdrawing(files, old(files), site, root)
      ensures ok ==> faults == old(faults) && ChosenIsRemovable(before, site, excluded, admit)
      ensures !ok && ChosenIsRemovable(before, site, excluded, admit) ==> faults > old(faults)
      ensures !ok && faults == old(faults) ==> files == old(files) && kernel == old(kernel)
    {
      var first := Choose(before, excluded);
      ok, fenced := true, None;
      if first.Some? {
        ghost var routes := record.value.routes;
        SameEvidenceSameRemoval(files, site, Merged(Staged(before), Legacy(before.files, site)), routes, first.value,
          admit);
        FencingRetains(routes, before, site, first.value);
        ok := RetireRoot(first.value, admit);
        ClearingRootClearsChosen(kernel, old(kernel), before, site, excluded, first.value, routes);
        fenced := if ok then first else None;
      }
    }

    method Choose(ghost before: World, excluded: set<Root>) returns (first: Option<Root>)
      requires record.Some? && Stages(Staged(before), Legacy(before.files, site), record.value.routes)
      ensures Retains(record.value.routes, before, site, None)
      ensures forall root :: Chosen(before, site, excluded, root) <==> first == Some(root)
      ensures if first.Some? then first.value in record.value.routes else record.value.routes.Keys <= excluded
    {
      StagesMerged(Staged(before), Legacy(before.files, site), record.value.routes);
      assert Merged(Staged(before), Legacy(before.files, site)).Keys == record.value.routes.Keys;
      var eligible := record.value.routes.Keys - excluded;
      assert record.value.routes.Keys <= excluded + eligible;
      first := First(eligible);
      OnlyChosen(before, site, excluded, first);
    }

    /** The withdrawal of one root, refused before any change unless it is removable. */
    method RetireRoot(root: Root, admit: Admission) returns (ok: bool)
      requires Valid() && record.Some? && root in record.value.routes
      modifies this`record, this`files, this`kernel, this`trace, this`faults
      ensures Valid() && old(trace) <= trace
      ensures record == if ok then Some(Fence(old(record.value), root)) else old(record)
      ensures ok ==> root !in Cached(files) && kernel.Keys !! Destinations(old(record.value).routes[root])
      ensures SameOutside(kernel, old(kernel), Destinations(old(record.value).routes[root]))
      ensures Within(kernel, old(kernel)) && Withdrawing(files, old(files), site, root)
      ensures ok ==> faults == old(faults) && Removable(old(files), site, old(record.value).routes, root, admit)
      ensures !ok && Removable(old(files), site, old(record.value).routes, root, admit) ==> faults > old(faults)
      ensures !ok && faults == old(faults) ==> files == old(files) && kernel == old(kernel)
    {
      var variants := record.value.routes[root];
      if !(forall i | 0 <= i < |variants| :: admit(root, variants[i])) {
        assert exists v :: Has(record.value.routes, root, v) && !admit(root, v);
        return false;
      }
      var plan;
      ok, plan := PlanCaches(root);
      if !ok {
        return;
      }
      ok := RemoveRoot(root, plan);
    }

    /** What the caches will be without the root; nothing is written yet. */
    method PlanCaches(root: Root) returns (ok: bool, plan: Option<Files>)
      ensures ok <==> LetsGo(files, site, root)
      ensures ok ==> Plans(files, site, root, plan)
    {
      if files.forwarding.None? {
        return false, None;
      }
      var data := files.forwarding.value.data;
      var holder := FindHolder(data, root);
      HolderIsUnique(data, root, holder);
      plan := None;
      match holder
      case Nobody =>
        ok := site.speaker.Some? ==> Readable(files, site.speaker.value);
      case Only(name) =>
        plan := Target(files, site.mesh, true, name, root, site.speaker);
        ok := plan.Some?;
      case Ambiguous =>
        ok := false;
    }

    method RemoveRoot(root: Root, plan: Option<Files>) returns (ok: bool)
      requires Valid() && record.Some? && root in record.value.routes && Plans(files, site, root, plan)
      modifies this`record, this`files, this`kernel, this`trace, this`faults
      ensures Valid() && old(trace) <= trace
      ensures if ok then faults == old(faults) else faults > old(faults)
      ensures record == if ok then Some(Fence(old(record.value), root)) else old(record)
      ensures ok ==> root !in Cached(files) && kernel.Keys !! Destinations(old(record.value).routes[root])
      ensures SameOutside(kernel, old(kernel), Destinations(old(record.value).routes[root]))
      ensures Within(kernel, old(kernel)) && Withdrawing(files, old(files), site, root)
    {
      ok := Renew();
      if !ok {
        return;
      }
      ok := ClearRoutes(root);
      if !ok {
        return;
      }
      ok := Renew();
      if !ok {
        return;
      }
      ok := FenceRoot(root, plan);
    }

    /** Removes the root's routes, each only if a variant knows it, and proves them absent. */
    method ClearRoutes(root: Root) returns (ok: bool)
      requires Valid() && record.Some? && root in record.value.routes
      modifies this`kernel, this`trace, this`faults
      ensures Valid() && old(trace) <= trace
      ensures if ok then faults == old(faults) else faults > old(faults)
      ensures ok ==> kernel.Keys !! Destinations(record.value.routes[root])
      ensures SameOutside(kernel, old(kernel), Destinations(record.value.routes[root]))
      ensures Within(kernel, old(kernel))
    {
      var variants := record.value.routes[root];
      var prefixes := Destinations(variants);
      assert Good(Now(), site);
      RootIsExplained(kernel, record.value.routes, root);
      ok := Preflight(kernel, prefixes, map[root := variants]);
      if !ok {
        return;
      }
      ok := Prune(prefixes, map[]);
    }

    /** The advertisement file, then the forwarding file, and only then the fence. */
    method FenceRoot(root: Root, plan: Option<Files>) returns (ok: bool)
      requires Valid() && record.Some? && root in record.value.routes && Plans(files, site, root, plan)
      requires kernel.Keys !! Destinations(record.value.routes[root])
      modifies this`record, this`files, this`trace, this`faults
      ensures Valid() && old(trace) <= trace
      ensures if ok then faults == old(faults) else faults > old(faults)
      ensures record == if ok then Some(Fence(old(record.value), root)) else old(record)
      ensures ok ==> root !in Cached(files)
      ensures Withdrawing(files, old(files), site, root)
    {
      if plan.Some? {
        ok := CommitCaches(root, plan.value);
        if !ok {
          return;
        }
      }
      assert Good(Now(), site);
      FenceKeepsOwnership(kernel, record.value, root);
      FenceIsAcceptable(record.value, root, site.self);
      ok := Replace(record, Fence(record.value, root));
    }

    /** Both cache files, one write each; a crash in between leaves the half pair. */
    method CommitCaches(root: Root, plan: Files) returns (ok: bool)
      requires Valid() && record.Some? && Plans(files, site, root, Some(plan))
      modifies this`files, this`trace, this`faults
      ensures Valid() && old(trace) <= trace
      ensures if ok then faults == old(faults) else faults > old(faults)
      ensures ok ==> files == plan && root !in Cached(files)
      ensures Withdrawing(files, old(files), site, root)
      ensures forall i | |old(trace)| <= i < |trace| ::
                trace[i].files == Half(old(files), plan) || trace[i].files == plan
    {
      PlanLosesRoot(files, site, root, plan);
      if plan.adverts.Some? {
        ok := WriteCache(files.(adverts := plan.adverts));
        if !ok {
          return;
        }
      }
      ok := WriteCache(files.(forwarding := plan.forwarding));
    }

    // ----- Any number of calls -----

    /**
     Whatever a client asks, and wherever the calls stop, a key fenced before or meanwhile stays
     fenced in every later state, has no evidence and is never cached again.
     */
    method Serve(calls: seq<Call>)
      requires Valid()
      modifies this`record, this`files, this`kernel, this`trace, this`faults
      ensures Valid() && old(trace) <= trace
      ensures forall i, j, root | |old(trace)| - 1 <= i <= j < |trace| && root in Retired(trace[i]) ::
                Gone(trace[j], site, root)
    {
      for k := 0 to |calls|
        invariant Valid() && old(trace) <= trace
      {
        match calls[k]
        case Installing(desired, admit) =>
          var _ := Apply(desired, admit);
        case Retiring(live, reserved, admit) =>
          var _, _ := Retire(live, reserved, admit);
        case Rebooting =>
          Reboot();
      }
      forall i, j, root | |old(trace)| - 1 <= i <= j < |trace| && root in Retired(trace[i])
        ensures Gone(trace[j], site, root)
      {
        FencedForever(trace, site, root, i, j);
      }
    }
  }
}
