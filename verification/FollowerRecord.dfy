/**
 The follower route record: for each worker root, every route variant an interrupted writer
 could have left in the kernel, and the keys whose ordinary withdrawal completed.

 Staging adds variants without losing one, compaction keeps a single verified variant for the
 roots it was asked about, and a record is accepted only when no destination of one root
 overlaps a destination of another.
 */
module FollowerRecord {
  import opened Options
  import opened Prefixes

  type Root = string
  type Routes = map<Prefix, Address>
  type Evidence = map<Root, seq<Routes>>

  datatype Record = Record(routes: Evidence, retired: set<Root>)

  /** A worker destination and a gateway of its family outside it. */
  predicate ValidRoute(dst: Prefix, via: Address) {
    dst.bits != [] && dst.family == via.family && !Matches(dst, via)
  }

  predicate ValidRoutes(routes: Routes) {
    routes != map[] && forall d | d in routes :: ValidRoute(d, routes[d])
  }

  function Destinations(variants: seq<Routes>): set<Prefix> {
    if variants == [] then {} else Destinations(variants[..|variants| - 1]) + variants[|variants| - 1].Keys
  }

  predicate OverlapsSome(d: Prefix, taken: set<Prefix>) {
    exists q :: q in taken && Overlaps(q, d)
  }

  predicate Apart(a: set<Prefix>, b: set<Prefix>) {
    forall d | d in b :: !OverlapsSome(d, a)
  }

  predicate ValidVariants(variants: seq<Routes>) {
    variants != [] && forall i | 0 <= i < |variants| :: ValidRoutes(variants[i])
  }

  /** No two roots have overlapping destinations. */
  ghost predicate RootsApart(routes: Evidence) {
    forall a, b | a in routes && b in routes && a != b :: Apart(Destinations(routes[a]), Destinations(routes[b]))
  }

  /** What decoding accepts. */
  ghost predicate Acceptable(r: Record, self: Root) {
    && self !in r.retired && r.retired !! r.routes.Keys
    && self !in r.routes
    && (forall root | root in r.routes :: ValidVariants(r.routes[root]))
    && RootsApart(r.routes)
  }

  lemma ApartSymmetric(a: set<Prefix>, b: set<Prefix>)
    requires Apart(a, b)
    ensures Apart(b, a)
  {
    forall d | d in a
      ensures !OverlapsSome(d, b)
    {
      forall q | q in b
        ensures !Overlaps(q, d)
      {
        assert !OverlapsSome(q, a);
        assert !Overlaps(d, q);
      }
    }
  }

  lemma {:induction false} DestinationsHit(variants: seq<Routes>, i: nat)
    requires i < |variants|
    ensures variants[i].Keys <= Destinations(variants)
  {
    if i < |variants| - 1 {
      assert variants[..|variants| - 1][i] == variants[i];
      DestinationsHit(variants[..|variants| - 1], i);
    }
  }

  lemma {:induction false} DestinationsFrom(variants: seq<Routes>, d: Prefix) returns (i: nat)
    requires d in Destinations(variants)
    ensures i < |variants| && d in variants[i]
  {
    if d in variants[|variants| - 1] {
      i := |variants| - 1;
    } else {
      i := DestinationsFrom(variants[..|variants| - 1], d);
    }
  }

  /** Some variant sends this address somewhere. */
  ghost predicate Routed(variants: seq<Routes>, a: Address) {
    exists i, d :: 0 <= i < |variants| && d in variants[i] && Matches(d, a)
  }

  lemma RoutedIff(variants: seq<Routes>, a: Address)
    ensures Routed(variants, a) <==> exists d :: d in Destinations(variants) && Matches(d, a)
  {
    if i, d :| 0 <= i < |variants| && d in variants[i] && Matches(d, a) {
      DestinationsHit(variants, i);
    }
    if d :| d in Destinations(variants) && Matches(d, a) {
      var i := DestinationsFrom(variants, d);
    }
  }

  lemma ApartIffNoAddress(x: seq<Routes>, y: seq<Routes>)
    ensures Apart(Destinations(x), Destinations(y)) <==> forall a :: !(Routed(x, a) && Routed(y, a))
  {
    if Apart(Destinations(x), Destinations(y)) {
      forall a | Routed(x, a)
        ensures !Routed(y, a)
      {
        RoutedIff(x, a);
        RoutedIff(y, a);
        var q :| q in Destinations(x) && Matches(q, a);
        forall d | d in Destinations(y)
          ensures !Matches(d, a)
        {
          OverlapIffCommonAddress(q, d);
        }
      }
    } else {
      var d :| d in Destinations(y) && OverlapsSome(d, Destinations(x));
      var q :| q in Destinations(x) && Overlaps(q, d);
      OverlapIffCommonAddress(q, d);
      var a :| Matches(q, a) && Matches(d, a);
      RoutedIff(x, a);
      RoutedIff(y, a);
    }
  }

  /** Every variant routes something, nothing routes everything, and no gateway is behind its own route. */
  ghost predicate WellRouted(variants: seq<Routes>) {
    && |variants| > 0
    && forall i | 0 <= i < |variants| ::
         && |variants[i]| > 0
         && forall d | d in variants[i] ::
              |d.bits| > 0 && variants[i][d].family == d.family && !(d.bits <= variants[i][d].bits)
  }

  ghost predicate OneRootPerAddress(routes: Evidence) {
    forall x, y, a | x in routes && y in routes && Routed(routes[x], a) && Routed(routes[y], a) :: x == y
  }

  lemma RootsApartIff(routes: Evidence)
    ensures RootsApart(routes) <==> OneRootPerAddress(routes)
  {
    forall x, y | x in routes && y in routes
      ensures Apart(Destinations(routes[x]), Destinations(routes[y])) <==>
              forall a :: !(Routed(routes[x], a) && Routed(routes[y], a))
    {
      ApartIffNoAddress(routes[x], routes[y]);
    }
  }

  /**
   A record is acceptable exactly when neither the node itself nor a fenced key has evidence,
   every root's variants are well routed, and no address is routed for two roots.
   */
  lemma AcceptableIff(r: Record, self: Root)
    ensures Acceptable(r, self) <==>
            && self !in r.retired + r.routes.Keys && (forall root | root in r.retired :: root !in r.routes)
            && (forall root | root in r.routes :: WellRouted(r.routes[root]))
            && OneRootPerAddress(r.routes)
  {
    RootsApartIff(r.routes);
    forall root | root in r.routes
      ensures ValidVariants(r.routes[root]) <==> WellRouted(r.routes[root])
    {
    }
  }

  // ----- Decoding -----

  method FindClash(d: Prefix, root: Root, owners: map<Prefix, Root>) returns (clash: bool)
    ensures clash <==> exists q :: q in owners && owners[q] != root && Overlaps(q, d)
  {
    var todo := owners.Keys;
    while todo != {}
      invariant todo <= owners.Keys
      invariant forall q | q in owners.Keys - todo :: !(owners[q] != root && Overlaps(q, d))
      decreases |todo|
    {
      var q :| q in todo;
      if owners[q] != root && Overlaps(q, d) {
        return true;
      }
      todo := todo - {q};
    }
    return false;
  }

  /** `owners` is `known` with further destinations of `root`. */
  ghost predicate Grown(owners: map<Prefix, Root>, known: map<Prefix, Root>, root: Root) {
    && known.Keys <= owners.Keys && root !in known.Values
    && forall q | q in owners :: if q in known then owners[q] == known[q] else owners[q] == root
  }

  lemma OnlyKnownClash(d: Prefix, root: Root, owners: map<Prefix, Root>, known: map<Prefix, Root>)
    requires Grown(owners, known, root)
    ensures (exists q :: q in owners && owners[q] != root && Overlaps(q, d)) <==> OverlapsSome(d, known.Keys)
  {
    assert forall q | q in known :: known[q] in known.Values && owners[q] != root;
  }

  method CheckRoute(d: Prefix, via: Address, root: Root, owners: map<Prefix, Root>, ghost known: map<Prefix, Root>)
    returns (ok: bool)
    requires Grown(owners, known, root)
    ensures ok <==> ValidRoute(d, via) && !OverlapsSome(d, known.Keys)
    ensures ok ==> Grown(owners[d := root], known, root)
  {
    if !ValidRoute(d, via) {
      return false;
    }
    var clash := FindClash(d, root, owners);
    OnlyKnownClash(d, root, owners, known);
    assert Overlaps(d, d);
    ok := !clash;
  }

  ghost predicate RouteOk(routes: Routes, d: Prefix, known: set<Prefix>)
    requires d in routes
  {
    ValidRoute(d, routes[d]) && !OverlapsSome(d, known)
  }

  ghost predicate Entered(owners: map<Prefix, Root>, before: map<Prefix, Root>, added: set<Prefix>) {
    forall q :: q in owners <==> q in before || q in added
  }

  /** One variant of `root`, entered into `owners` as it passes. */
  method DecodeRoutes(routes: Routes, root: Root, before: map<Prefix, Root>, ghost known: map<Prefix, Root>)
    returns (ok: bool, owners: map<Prefix, Root>)
    requires Grown(before, known, root)
    ensures ok <==> routes != map[] && forall d | d in routes :: RouteOk(routes, d, known.Keys)
    ensures ok ==> Grown(owners, known, root) && Entered(owners, before, routes.Keys)
  {
    owners := before;
    if routes == map[] {
      return false, owners;
    }
    var todo := routes.Keys;
    ghost var done: set<Prefix> := {};
    while todo != {}
      invariant done + todo == routes.Keys
      invariant Grown(owners, known, root)
      invariant Entered(owners, before, done)
      invariant forall d | d in done :: RouteOk(routes, d, known.Keys)
      decreases |todo|
    {
      var d :| d in todo;
      ok := CheckRoute(d, routes[d], root, owners, known);
      if !ok {
        assert !RouteOk(routes, d, known.Keys);
        return false, owners;
      }
      owners := owners[d := root];
      todo := todo - {d};
      done := done + {d};
    }
    ok := true;
  }

  method DecodeVariants(variants: seq<Routes>, root: Root, known: map<Prefix, Root>)
    returns (ok: bool, owners: map<Prefix, Root>)
    requires root !in known.Values
    ensures ok <==> ValidVariants(variants) && Apart(known.Keys, Destinations(variants))
    ensures ok ==> Grown(owners, known, root) && owners.Keys == known.Keys + Destinations(variants)
  {
    owners := known;
    if variants == [] {
      return false, owners;
    }
    for i := 0 to |variants|
      invariant Grown(owners, known, root) && owners.Keys == known.Keys + Destinations(variants[..i])
      invariant forall j | 0 <= j < i :: ValidRoutes(variants[j])
      invariant Apart(known.Keys, Destinations(variants[..i]))
    {
      assert variants[..i + 1][..i] == variants[..i];
      ok, owners := DecodeRoutes(variants[i], root, owners, known);
      assert ok <==> ValidRoutes(variants[i]) && Apart(known.Keys, variants[i].Keys);
      if !ok {
        DestinationsHit(variants, i);
        return false, owners;
      }
    }
    assert variants[..|variants|] == variants;
    ok := true;
  }

  function Union(routes: Evidence, roots: set<Root>): set<Prefix> {
    set root, d | root in roots && root in routes && d in Destinations(routes[root]) :: d
  }

  lemma UnionAdd(routes: Evidence, roots: set<Root>, root: Root)
    requires root in routes
    ensures Union(routes, roots + {root}) == Union(routes, roots) + Destinations(routes[root])
  {
  }

  /** The roots read so far are valid and keep apart from each other. */
  ghost predicate ReadSoFar(r: Record, done: set<Root>, self: Root) {
    && done <= r.routes.Keys && self !in done
    && (forall root | root in done :: ValidVariants(r.routes[root]))
    && (forall a, b | a in done && b in done && a != b :: Apart(Destinations(r.routes[a]), Destinations(r.routes[b])))
  }

  lemma ReadOne(r: Record, done: set<Root>, self: Root, root: Root)
    requires ReadSoFar(r, done, self) && root in r.routes && root !in done && root != self
    requires ValidVariants(r.routes[root]) && Apart(Union(r.routes, done), Destinations(r.routes[root]))
    ensures ReadSoFar(r, done + {root}, self)
  {
    forall a | a in done
      ensures Apart(Destinations(r.routes[a]), Destinations(r.routes[root]))
      ensures Apart(Destinations(r.routes[root]), Destinations(r.routes[a]))
    {
      assert Destinations(r.routes[a]) <= Union(r.routes, done);
      ApartSymmetric(Destinations(r.routes[a]), Destinations(r.routes[root]));
    }
  }

  lemma ClashIsIllFormed(r: Record, done: set<Root>, self: Root, root: Root)
    requires done <= r.routes.Keys && root in r.routes && root !in done
    requires !ValidVariants(r.routes[root]) || !Apart(Union(r.routes, done), Destinations(r.routes[root]))
    ensures !Acceptable(r, self)
  {
    if ValidVariants(r.routes[root]) {
      var d :| d in Destinations(r.routes[root]) && OverlapsSome(d, Union(r.routes, done));
      var q :| q in Union(r.routes, done) && Overlaps(q, d);
      var a :| a in done && q in Destinations(r.routes[a]);
      assert OverlapsSome(d, Destinations(r.routes[a]));
    }
  }

  /** `owners` knows the destinations of the roots read so far, and only those roots. */
  ghost predicate OwnersOf(owners: map<Prefix, Root>, routes: Evidence, done: set<Root>) {
    owners.Keys == Union(routes, done) && owners.Values <= done
  }

  /** One more root read, or a reason to refuse the whole record. */
  method DecodeRoot(r: Record, self: Root, root: Root, known: map<Prefix, Root>, ghost done: set<Root>)
    returns (ok: bool, owners: map<Prefix, Root>)
    requires ReadSoFar(r, done, self) && root in r.routes && root !in done
    requires OwnersOf(known, r.routes, done)
    ensures !ok ==> !Acceptable(r, self)
    ensures ok ==> ReadSoFar(r, done + {root}, self) && OwnersOf(owners, r.routes, done + {root})
  {
    if root == self {
      return false, known;
    }
    ok, owners := DecodeVariants(r.routes[root], root, known);
    if ok {
      ReadOne(r, done, self, root);
      UnionAdd(r.routes, done, root);
    } else {
      ClashIsIllFormed(r, done, self, root);
    }
  }

  lemma ReadAll(r: Record, done: set<Root>, self: Root)
    requires ReadSoFar(r, done, self) && r.routes.Keys <= done
    requires self !in r.retired && r.retired !! r.routes.Keys
    ensures Acceptable(r, self)
  {
  }

  /** Accepts exactly the acceptable records, whatever order the roots are read in. */
  method Decode(r: Record, self: Root) returns (ok: bool)
    ensures ok <==> Acceptable(r, self)
  {
    if self in r.retired || !(r.retired !! r.routes.Keys) {
      return false;
    }
    ok := DecodeRoots(r, self);
  }

  method DecodeRoots(r: Record, self: Root) returns (ok: bool)
    requires self !in r.retired && r.retired !! r.routes.Keys
    ensures ok <==> Acceptable(r, self)
  {
    var owners: map<Prefix, Root> := map[];
    var todo := r.routes.Keys;
    ghost var done: set<Root> := {};
    while todo != {}
      invariant forall root | root in todo :: root in r.routes && root !in done
      invariant forall root | root in r.routes :: root in done || root in todo
      invariant ReadSoFar(r, done, self) && OwnersOf(owners, r.routes, done)
      decreases |todo|
    {
      var root :| root in todo;
      ok, owners := DecodeRoot(r, self, root, owners, done);
      if !ok {
        return;
      }
      todo := todo - {root};
      done := done + {root};
    }
    ReadAll(r, done, self);
    ok := true;
  }

  // ----- Staging -----

  function Variants(routes: Evidence, root: Root): seq<Routes> {
    if root in routes then routes[root] else []
  }

  predicate Has(routes: Evidence, root: Root, variant: Routes) {
    variant in Variants(routes, root)
  }

  predicate Distinct(variants: seq<Routes>) {
    forall i, j | 0 <= i < j < |variants| :: variants[i] != variants[j]
  }

  method StageRoot(recorded: seq<Routes>, candidates: seq<Routes>) returns (all: seq<Routes>)
    ensures recorded <= all && (Distinct(recorded) ==> Distinct(all))
    ensures forall v :: v in all <==> v in recorded || v in candidates
  {
    all := recorded;
    for k := 0 to |candidates|
      invariant recorded <= all && (Distinct(recorded) ==> Distinct(all))
      invariant forall v :: v in all <==> v in recorded || v in candidates[..k]
    {
      assert candidates[..k + 1] == candidates[..k] + [candidates[k]];
      var found := false;
      for i := 0 to |all|
        invariant found <==> candidates[k] in all[..i]
      {
        assert all[..i + 1] == all[..i] + [all[i]];
        found := found || all[i] == candidates[k];
      }
      assert all[..|all|] == all;
      if !found {
        all := all + [candidates[k]];
      }
    }
    assert candidates[..|candidates|] == candidates;
  }

  /** `next` has every variant of both, earlier ones first, and no root without a variant. */
  ghost predicate StagesAt(previous: Evidence, variants: Evidence, next: Evidence, root: Root) {
    var was, now := Variants(previous, root), Variants(next, root);
    && was <= now && (Distinct(was) ==> Distinct(now))
    && (forall v :: v in now <==> v in was || v in Variants(variants, root))
    && (root in next <==> root in previous || Variants(variants, root) != [])
  }

  ghost predicate Stages(previous: Evidence, variants: Evidence, next: Evidence) {
    forall root :: StagesAt(previous, variants, next, root)
  }

  ghost predicate SameAt(a: Evidence, b: Evidence, root: Root) {
    (root in a <==> root in b) && Variants(a, root) == Variants(b, root)
  }

  method StageNext(previous: Evidence, variants: Evidence, before: Evidence, root: Root) returns (next: Evidence)
    requires SameAt(before, previous, root) && root in variants
    ensures StagesAt(previous, variants, next, root)
    ensures forall r | r != root :: SameAt(before, next, r)
  {
    var all := StageRoot(Variants(before, root), variants[root]);
    assert all == [] || all[0] in all;
    assert variants[root] == [] || variants[root][0] in all;
    next := if all == [] then before else before[root := all];
  }

  lemma StagesFrame(previous: Evidence, variants: Evidence, before: Evidence, next: Evidence, root: Root)
    requires SameAt(before, next, root)
    ensures StagesAt(previous, variants, before, root) <==> StagesAt(previous, variants, next, root)
  {
  }

  /** The record to write before installing any of `variants`. */
  method StageVariants(previous: Evidence, variants: Evidence) returns (next: Evidence)
    ensures Stages(previous, variants, next)
  {
    next := previous;
    var todo := variants.Keys;
    while todo != {}
      invariant todo <= variants.Keys
      invariant forall root | root in todo :: SameAt(next, previous, root)
      invariant forall root | root !in todo :: StagesAt(previous, variants, next, root)
      decreases |todo|
    {
      var root :| root in todo;
      var before := next;
      next := StageNext(previous, variants, before, root);
      todo := todo - {root};
      forall r | r in todo
        ensures SameAt(next, previous, r)
      {
        assert SameAt(before, next, r) && SameAt(before, previous, r);
      }
      forall r | r !in todo
        ensures StagesAt(previous, variants, next, r)
      {
        if r != root {
          StagesFrame(previous, variants, before, next, r);
        }
      }
    }
  }

  function Compact(staged: Record, desired: map<Root, Routes>): Record {
    var routes := map root | root in staged.routes :: if root in desired then [desired[root]] else staged.routes[root];
    Record(routes, staged.retired)
  }

  /** Compaction: one verified variant for each desired root, which must have been staged. */
  method Finish(staged: Record, desired: map<Root, Routes>) returns (next: Option<Record>)
    ensures next.Some? <==> forall root | root in desired :: Has(staged.routes, root, desired[root])
    ensures next.Some? ==> next.value == Compact(staged, desired)
  {
    var routes := staged.routes;
    var todo := desired.Keys;
    while todo != {}
      invariant todo <= desired.Keys && routes.Keys == staged.routes.Keys
      invariant forall root | root in desired.Keys - todo :: Has(staged.routes, root, desired[root])
      invariant forall root | root in routes ::
                  routes[root] == if root in desired.Keys - todo then [desired[root]] else staged.routes[root]
      decreases |todo|
    {
      var root :| root in todo;
      if root !in staged.routes || desired[root] !in staged.routes[root] {
        return None;
      }
      routes := routes[root := [desired[root]]];
      todo := todo - {root};
    }
    return Some(Record(routes, staged.retired));
  }

  // ----- What the record says about the kernel -----

  ghost predicate Recorded(routes: Evidence, root: Root, d: Prefix, via: Address) {
    exists v :: Has(routes, root, v) && d in v && v[d] == via
  }

  /** Every kernel route is in a recorded variant. */
  ghost predicate Owned(kernel: Routes, routes: Evidence) {
    forall d | d in kernel :: exists root :: Recorded(routes, root, d, kernel[d])
  }

  lemma HasDestination(routes: Evidence, root: Root, v: Routes)
    requires Has(routes, root, v)
    ensures v.Keys <= Destinations(routes[root])
  {
    var i :| 0 <= i < |routes[root]| && routes[root][i] == v;
    DestinationsHit(routes[root], i);
  }

  lemma RecordedDestination(routes: Evidence, root: Root, d: Prefix, via: Address)
    requires Recorded(routes, root, d, via)
    ensures root in routes && d in Destinations(routes[root])
  {
    var v :| Has(routes, root, v) && d in v && v[d] == via;
    HasDestination(routes, root, v);
  }

  /** In an accepted record at most one root claims a destination. */
  lemma OneOwner(routes: Evidence, a: Root, b: Root, d: Prefix)
    requires RootsApart(routes) && a in routes && b in routes
    requires d in Destinations(routes[a]) && d in Destinations(routes[b])
    ensures a == b
  {
    assert Overlaps(d, d);
    assert OverlapsSome(d, Destinations(routes[a]));
  }

  /** Staging loses no variant. */
  lemma StagingKeepsOwnership(kernel: Routes, previous: Evidence, variants: Evidence, next: Evidence)
    requires Stages(previous, variants, next)
    requires Owned(kernel, previous) || Owned(kernel, variants)
    ensures Owned(kernel, next)
  {
    forall d | d in kernel
      ensures exists root :: Recorded(next, root, d, kernel[d])
    {
      if Owned(kernel, previous) {
        var root :| Recorded(previous, root, d, kernel[d]);
        var v :| Has(previous, root, v) && d in v && v[d] == kernel[d];
        assert StagesAt(previous, variants, next, root);
        assert Has(next, root, v);
        assert Recorded(next, root, d, kernel[d]);
      } else {
        var root :| Recorded(variants, root, d, kernel[d]);
        var v :| Has(variants, root, v) && d in v && v[d] == kernel[d];
        assert StagesAt(previous, variants, next, root);
        assert Has(next, root, v);
        assert Recorded(next, root, d, kernel[d]);
      }
    }
  }

  lemma InstallKeepsOwnership(kernel: Routes, routes: Evidence, root: Root, d: Prefix, via: Address)
    requires Owned(kernel, routes) && Recorded(routes, root, d, via)
    ensures Owned(kernel[d := via], routes)
  {
  }

  /** Only `desired` routes of these roots are in the kernel. */
  ghost predicate Settled(kernel: Routes, staged: Evidence, desired: map<Root, Routes>) {
    forall root, d | root in desired && root in staged && d in kernel && d in Destinations(staged[root]) ::
      d in desired[root] && kernel[d] == desired[root][d]
  }

  /** Compaction after a verified installation forgets no route, of touched and untouched roots alike. */
  lemma CompactionKeepsOwnership(kernel: Routes, staged: Record, desired: map<Root, Routes>)
    requires Owned(kernel, staged.routes) && Settled(kernel, staged.routes, desired)
    ensures Owned(kernel, Compact(staged, desired).routes)
  {
    var next := Compact(staged, desired).routes;
    forall d | d in kernel
      ensures exists root :: Recorded(next, root, d, kernel[d])
    {
      var root :| Recorded(staged.routes, root, d, kernel[d]);
      RecordedDestination(staged.routes, root, d, kernel[d]);
      if root in desired {
        assert Has(next, root, desired[root]);
      } else {
        var v :| Has(staged.routes, root, v) && d in v && v[d] == kernel[d];
        assert Has(next, root, v);
      }
      assert Recorded(next, root, d, kernel[d]);
    }
  }

  lemma ApartSubsets(a: set<Prefix>, b: set<Prefix>, a': set<Prefix>, b': set<Prefix>)
    requires Apart(a, b) && a' <= a && b' <= b
    ensures Apart(a', b')
  {
  }

  lemma CompactDestinations(staged: Record, desired: map<Root, Routes>, root: Root)
    requires root in staged.routes && (root in desired ==> Has(staged.routes, root, desired[root]))
    ensures Destinations(Compact(staged, desired).routes[root]) <= Destinations(staged.routes[root])
  {
    if root in desired {
      HasDestination(staged.routes, root, desired[root]);
      var one := [desired[root]];
      assert one[..0] == [];
      assert Destinations(one) == {} + desired[root].Keys;
    }
  }

  lemma CompactionIsAcceptable(staged: Record, desired: map<Root, Routes>, self: Root)
    requires Acceptable(staged, self) && forall root | root in desired :: Has(staged.routes, root, desired[root])
    ensures Acceptable(Compact(staged, desired), self)
  {
    var next := Compact(staged, desired);
    forall a, b | a in next.routes && b in next.routes && a != b
      ensures Apart(Destinations(next.routes[a]), Destinations(next.routes[b]))
    {
      CompactDestinations(staged, desired, a);
      CompactDestinations(staged, desired, b);
      ApartSubsets(Destinations(staged.routes[a]), Destinations(staged.routes[b]), Destinations(next.routes[a]),
        Destinations(next.routes[b]));
    }
    forall root | root in next.routes
      ensures ValidVariants(next.routes[root])
    {
      assert ValidVariants(staged.routes[root]);
      if root in desired {
        var i :| 0 <= i < |staged.routes[root]| && staged.routes[root][i] == desired[root];
      }
    }
  }

  function Fence(staged: Record, root: Root): Record {
    Record(staged.routes - {root}, staged.retired + {root})
  }

  lemma FenceIsAcceptable(staged: Record, root: Root, self: Root)
    requires Acceptable(staged, self) && root in staged.routes
    ensures Acceptable(Fence(staged, root), self)
  {
  }

  /** A root may be fenced once none of its destinations is left in the kernel. */
  lemma FenceKeepsOwnership(kernel: Routes, staged: Record, root: Root)
    requires root in staged.routes
    requires Owned(kernel, staged.routes) && kernel.Keys !! Destinations(staged.routes[root])
    ensures Owned(kernel, Fence(staged, root).routes)
  {
    var next := Fence(staged, root).routes;
    forall d | d in kernel
      ensures exists r :: Recorded(next, r, d, kernel[d])
    {
      var r :| Recorded(staged.routes, r, d, kernel[d]);
      RecordedDestination(staged.routes, r, d, kernel[d]);
      assert r != root;
      var v :| Has(staged.routes, r, v) && d in v && v[d] == kernel[d];
      assert Variants(next, r) == Variants(staged.routes, r);
      assert Has(next, r, v);
      assert Recorded(next, r, d, kernel[d]);
    }
  }
}
