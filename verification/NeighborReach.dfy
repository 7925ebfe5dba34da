/**
 What neighbor planning means for addresses.

 The planner compares prefixes. Here each of its decisions is equivalent to a statement about
 the addresses a peer may send from: who owns them, and which journals protect them.
 */
module NeighborReach {
  import opened NeighborCheckpoint
  import opened NeighborSources
  import opened Options
  import opened Prefixes

  /** An accept list with these prefixes admits packets from this address. */
  ghost predicate Reaches(prefixes: set<Prefix>, a: Address) {
    exists p :: p in prefixes && Matches(p, a)
  }

  ghost predicate ShareAddress(x: set<Prefix>, y: set<Prefix>) {
    exists a :: Reaches(x, a) && Reaches(y, a)
  }

  lemma ApartIffNoAddress(x: set<Prefix>, y: set<Prefix>)
    ensures Apart(x, y) <==> !ShareAddress(x, y)
  {
    if a :| Reaches(x, a) && Reaches(y, a) {
      var p :| p in x && Matches(p, a);
      var q :| q in y && Matches(q, a);
      OverlapIffCommonAddress(p, q);
    } else {
      forall p, q | p in x && q in y
        ensures !Overlaps(p, q)
      {
        OverlapIffCommonAddress(p, q);
        if a :| Matches(p, a) && Matches(q, a) {
          assert Reaches(x, a) && Reaches(y, a);
        }
      }
    }
  }

  /** No address of the list belongs to a site transport or to one of these journal roots. */
  ghost predicate ClearOf(g: Guard, roots: set<Key>, prefixes: set<Prefix>) {
    && !ShareAddress(prefixes, g.shielded)
    && forall root | root in roots && root in g.owned :: !ShareAddress(prefixes, g.owned[root])
  }

  lemma ApartIffClear(g: Guard, roots: set<Key>, prefixes: set<Prefix>)
    ensures Apart(prefixes, Shield(g, roots)) <==> ClearOf(g, roots, prefixes)
  {
    ApartIffNoAddress(prefixes, g.shielded);
    forall root | root in roots && root in g.owned
      ensures Apart(prefixes, g.owned[root]) <==> !ShareAddress(prefixes, g.owned[root])
    {
      ApartIffNoAddress(prefixes, g.owned[root]);
    }
    if Apart(prefixes, Shield(g, roots)) {
      ShieldHolds(g, roots, prefixes);
    }
    if ClearOf(g, roots, prefixes) {
      forall p, q | p in prefixes && q in Shield(g, roots)
        ensures !Overlaps(p, q)
      {
        if q !in g.shielded {
          var root :| root in roots && root in g.owned && q in g.owned[root];
          assert Apart(prefixes, g.owned[root]);
        }
      }
    }
  }

  lemma ShieldHolds(g: Guard, roots: set<Key>, prefixes: set<Prefix>)
    requires Apart(prefixes, Shield(g, roots))
    ensures Apart(prefixes, g.shielded)
    ensures forall root | root in roots && root in g.owned :: Apart(prefixes, g.owned[root])
  {
    forall root, q | root in roots && root in g.owned && q in g.owned[root]
      ensures q in Shield(g, roots)
    {
    }
  }

  // ----- Publications -----

  /** At least one source, each a prefix, and every route host an address that the sources reach. */
  ghost predicate SelfContained(s: Setting, p: Peer) {
    && |p.sources| > 0 && (forall raw | raw in p.sources :: s.parse(raw).Some?)
    && (forall host | host in p.hosts :: exists a :: s.address(host) == Some(a) && Reaches(PrefixesOf(s, p), a))
  }

  lemma SelfContainedIff(s: Setting, p: Peer)
    ensures Parsable(s, p) && Authorized(s, p) <==> SelfContained(s, p)
  {
    if Authorized(s, p) {
      forall host | host in p.hosts
        ensures exists a :: s.address(host) == Some(a) && Reaches(PrefixesOf(s, p), a)
      {
        var i :| 0 <= i < |p.hosts| && p.hosts[i] == host;
        assert Reaches(PrefixesOf(s, p), s.address(host).value);
      }
    }
    if SelfContained(s, p) {
      forall i | 0 <= i < |p.hosts|
        ensures s.address(p.hosts[i]).Some?
        ensures exists q :: q in PrefixesOf(s, p) && Matches(q, s.address(p.hosts[i]).value)
      {
        assert p.hosts[i] in p.hosts;
      }
    }
  }

  /** An ordinary peer: no transport key, readable, its hosts its own, its addresses no journal's. */
  ghost predicate Stands(s: Setting, g: Guard, roots: set<Key>, p: Peer) {
    p.key !in g.transport && SelfContained(s, p) && ClearOf(g, roots, PrefixesOf(s, p))
  }

  lemma StandsIff(s: Setting, g: Guard, roots: set<Key>, p: Peer)
    ensures EntryAllowed(s, g, Shield(g, roots), p) <==> Stands(s, g, roots, p)
  {
    SelfContainedIff(s, p);
    ApartIffClear(g, roots, PrefixesOf(s, p));
  }

  /** What a complete publication has to be, entry by entry and pair by pair. */
  ghost predicate WellPlanned(s: Setting, g: Guard, reserved: set<Key>, published: seq<Peer>) {
    && (forall i | 0 <= i < |published| :: s.valid(published[i].key))
    && DistinctKeys(published)
    && (forall i | 0 <= i < |published| && published[i].key !in reserved :: Stands(s, g, reserved, published[i]))
    && Separate(s, reserved, published)
  }

  ghost predicate Separate(s: Setting, reserved: set<Key>, published: seq<Peer>) {
    forall i, j | 0 <= i < j < |published| && published[i].key !in reserved && published[j].key !in reserved ::
      !ShareAddress(PrefixesOf(s, published[j]), PrefixesOf(s, published[i]))
  }

  /** The planner returns exactly the unreserved entries. */
  lemma {:induction false} OrdinaryIff(published: seq<Peer>, reserved: set<Key>, p: Peer)
    ensures p in Ordinary(published, reserved) <==> p in published && p.key !in reserved
  {
    if published != [] {
      OrdinaryIff(published[..|published| - 1], reserved, p);
      assert published == published[..|published| - 1] + [published[|published| - 1]];
    }
  }

  lemma {:induction false} AllPrefixesIff(s: Setting, peers: seq<Peer>, q: Prefix)
    ensures q in AllPrefixes(s, peers) <==> exists p :: p in peers && q in PrefixesOf(s, p)
  {
    if peers != [] {
      AllPrefixesIff(s, peers[..|peers| - 1], q);
      assert peers == peers[..|peers| - 1] + [peers[|peers| - 1]];
    }
  }

  lemma OrdinaryPrefix(s: Setting, reserved: set<Key>, published: seq<Peer>, q: Prefix)
    ensures q in AllPrefixes(s, Ordinary(published, reserved)) <==>
              exists i :: 0 <= i < |published| && published[i].key !in reserved && q in PrefixesOf(s, published[i])
  {
    AllPrefixesIff(s, Ordinary(published, reserved), q);
    forall p
      ensures p in Ordinary(published, reserved) <==> p in published && p.key !in reserved
    {
      OrdinaryIff(published, reserved, p);
    }
    if i :| 0 <= i < |published| && published[i].key !in reserved && q in PrefixesOf(s, published[i]) {
      assert published[i] in Ordinary(published, reserved);
    }
  }

  /** Being apart from everything earlier is sharing no address with any earlier ordinary entry. */
  lemma ApartIffSeparate(s: Setting, reserved: set<Key>, earlier: seq<Peer>, prefixes: set<Prefix>)
    ensures Apart(prefixes, AllPrefixes(s, Ordinary(earlier, reserved))) <==>
              forall i | 0 <= i < |earlier| && earlier[i].key !in reserved ::
              !ShareAddress(prefixes, PrefixesOf(s, earlier[i]))
  {
    var all := AllPrefixes(s, Ordinary(earlier, reserved));
    forall i | 0 <= i < |earlier|
      ensures Apart(prefixes, PrefixesOf(s, earlier[i])) <==> !ShareAddress(prefixes, PrefixesOf(s, earlier[i]))
    {
      ApartIffNoAddress(prefixes, PrefixesOf(s, earlier[i]));
    }
    forall q
      ensures q in all <==>
              exists i :: 0 <= i < |earlier| && earlier[i].key !in reserved && q in PrefixesOf(s, earlier[i])
    {
      OrdinaryPrefix(s, reserved, earlier, q);
    }
  }

  lemma PlannedAfterIff(s: Setting, g: Guard, reserved: set<Key>, earlier: seq<Peer>, p: Peer)
    ensures PlannedAfter(s, g, reserved, earlier, p) <==>
            && s.valid(p.key) && (forall i | 0 <= i < |earlier| :: earlier[i].key != p.key)
            && (p.key in reserved ||
                (Stands(s, g, reserved, p) &&
                 forall i | 0 <= i < |earlier| && earlier[i].key !in reserved ::
                   !ShareAddress(PrefixesOf(s, p), PrefixesOf(s, earlier[i]))))
  {
    StandsIff(s, g, reserved, p);
    ApartIffSeparate(s, reserved, earlier, PrefixesOf(s, p));
    if p.key in Keys(earlier) {
      var i := KeyFrom(earlier, p.key);
    } else {
      forall i | 0 <= i < |earlier|
        ensures earlier[i].key != p.key
      {
        IdentityHit(earlier, i);
      }
    }
  }

  /**
   The planner accepts a publication exactly when every entry has a valid key of its own and no
   address of an ordinary entry belongs to another ordinary entry, to a site transport or to a
   reserved root.
   */
  lemma {:induction false} PlannableIff(s: Setting, g: Guard, reserved: set<Key>, published: seq<Peer>)
    ensures Plannable(s, g, reserved, published) <==> WellPlanned(s, g, reserved, published)
  {
    if published != [] {
      var front, last := published[..|published| - 1], published[|published| - 1];
      PlannableIff(s, g, reserved, front);
      PlannedAfterIff(s, g, reserved, front, last);
      WellPlannedAppend(s, g, reserved, front, last);
      assert published == front + [last];
    }
  }

  lemma WellPlannedAppend(s: Setting, g: Guard, reserved: set<Key>, front: seq<Peer>, last: Peer)
    ensures WellPlanned(s, g, reserved, front + [last]) <==>
            && WellPlanned(s, g, reserved, front)
            && s.valid(last.key) && (forall i | 0 <= i < |front| :: front[i].key != last.key)
            && (last.key in reserved ||
                (Stands(s, g, reserved, last) &&
                 forall i | 0 <= i < |front| && front[i].key !in reserved ::
                   !ShareAddress(PrefixesOf(s, last), PrefixesOf(s, front[i]))))
  {
    var all := front + [last];
    assert forall i | 0 <= i < |front| :: all[i] == front[i];
    assert all[|front|] == last;
  }

  // ----- What a pass starts from -----

  /** What earlier passes left on record, in the order it is read. */
  ghost function Trail(w: World): seq<Peer> {
    (match w.main case Some(peers) => peers case None => []) +
    (match w.sidecar case Some(c) => c.retiring + c.candidates case None => w.legacy)
  }

  /** Entry `i` is the first one with its permission. */
  ghost predicate Leads(trail: seq<Peer>, i: int) {
    0 <= i < |trail| && forall j | 0 <= j < i :: Identity(trail[j]) != Identity(trail[i])
  }

  lemma {:induction false} IdentityIff(peers: seq<Peer>, id: Permission)
    ensures id in Identities(peers) <==> exists i :: 0 <= i < |peers| && Identity(peers[i]) == id
  {
    if id in Identities(peers) {
      var i := IdentityFrom(peers, id);
    }
    if i :| 0 <= i < |peers| && Identity(peers[i]) == id {
      IdentityHit(peers, i);
    }
  }

  lemma {:induction false} MergedIdentities(known: seq<Peer>, prior: seq<Peer>)
    ensures Identities(Merged(known, prior)) == Identities(known) + Identities(prior)
  {
    if prior != [] {
      var before, last := Merged(known, prior[..|prior| - 1]), prior[|prior| - 1];
      MergedIdentities(known, prior[..|prior| - 1]);
      assert (before + [last])[..|before|] == before;
    }
  }

  /** The entry is the first one with its permission. */
  ghost predicate First(trail: seq<Peer>, p: Peer) {
    exists i :: Leads(trail, i) && trail[i] == p
  }

  lemma FirstAppend(front: seq<Peer>, last: Peer, p: Peer)
    ensures First(front + [last], p) <==> First(front, p) || (p == last && Identity(last) !in Identities(front))
  {
    var all := front + [last];
    IdentityIff(front, Identity(last));
    assert forall i | 0 <= i < |front| :: all[i] == front[i];
    assert Leads(all, |front|) <==> Identity(last) !in Identities(front);
    assert forall i | 0 <= i < |front| :: Leads(all, i) <==> Leads(front, i);
  }

  /** In a joined list the first entries are those of the first part, and those of the second not seen before. */
  lemma {:induction false} FirstConcat(a: seq<Peer>, b: seq<Peer>, p: Peer)
    ensures First(a + b, p) <==> First(a, p) || (First(b, p) && Identity(p) !in Identities(a))
  {
    if b == [] {
      assert a + b == a && !First(b, p);
    } else {
      FirstConcat(a, b[..|b| - 1], p);
      FirstConcatStep(a, b[..|b| - 1], b[|b| - 1], p);
      assert b == b[..|b| - 1] + [b[|b| - 1]];
    }
  }

  lemma FirstConcatStep(a: seq<Peer>, front: seq<Peer>, last: Peer, p: Peer)
    requires First(a + front, p) <==> First(a, p) || (First(front, p) && Identity(p) !in Identities(a))
    ensures First(a + (front + [last]), p) <==>
            First(a, p) || (First(front + [last], p) && Identity(p) !in Identities(a))
  {
    FirstAppend(a + front, last, p);
    FirstAppend(front, last, p);
    IdentitiesAppend(a, front);
    assert a + (front + [last]) == (a + front) + [last];
  }

  lemma MergedAppend(known: seq<Peer>, front: seq<Peer>, last: Peer, p: Peer)
    ensures p in Merged(known, front + [last]) <==>
            p in Merged(known, front) || (p == last && Identity(last) !in Identities(known) + Identities(front))
  {
    assert (front + [last])[..|front|] == front;
    MergedIdentities(known, front);
  }

  /** Merging keeps what is known and adds the first entry of each new permission. */
  lemma {:induction false} MergedIff(known: seq<Peer>, prior: seq<Peer>, p: Peer)
    ensures p in Merged(known, prior) <==> p in known || (First(prior, p) && Identity(p) !in Identities(known))
  {
    if prior == [] {
      assert !First(prior, p);
    } else {
      var front, last := prior[..|prior| - 1], prior[|prior| - 1];
      assert prior == front + [last];
      MergedIff(known, front, p);
      MergedAppend(known, front, last, p);
      FirstAppend(front, last, p);
    }
  }

  /** A pass starts from the first entry of each recorded permission. */
  lemma PreviousIff(w: World, p: Peer)
    ensures p in Previous(w) <==> First(Trail(w), p)
  {
    var main, second := MainPeers(w), SecondSource(w);
    MergedIff([], main, p);
    MergedIff(Merged([], main), second, p);
    MergedIdentities([], main);
    FirstConcat(main, second, p);
  }

  /** The publication has an ordinary entry with this key. */
  ghost predicate Wanted(published: seq<Peer>, reserved: set<Key>, key: Key) {
    key !in reserved && exists p :: p in published && p.key == key
  }

  lemma WantedIff(published: seq<Peer>, reserved: set<Key>, key: Key)
    ensures key in Keys(Ordinary(published, reserved)) <==> Wanted(published, reserved, key)
  {
    var desired := Ordinary(published, reserved);
    if key in Keys(desired) {
      var i := KeyFrom(desired, key);
      OrdinaryIff(published, reserved, desired[i]);
    }
    if Wanted(published, reserved, key) {
      var p :| p in published && p.key == key;
      OrdinaryIff(published, reserved, p);
      var i :| 0 <= i < |desired| && desired[i] == p;
      IdentityHit(desired, i);
    }
  }

  /** No recorded entry loses a source, as spelled, to the wanted entry of its key. */
  ghost predicate OnlyGrows(trail: seq<Peer>, published: seq<Peer>, reserved: set<Key>) {
    forall was, p, raw | was in trail && p in published && p.key == was.key && p.key !in reserved ::
      raw in was.sources ==> raw in p.sources
  }

  lemma GrowsIff(previous: seq<Peer>, published: seq<Peer>, reserved: set<Key>)
    ensures Grows(previous, Ordinary(published, reserved)) <==> OnlyGrows(previous, published, reserved)
  {
    var desired := Ordinary(published, reserved);
    forall p
      ensures p in desired <==> p in published && p.key !in reserved
    {
      OrdinaryIff(published, reserved, p);
    }
    if Grows(previous, desired) {
      forall was, p, raw | was in previous && p in desired && p.key == was.key && raw in was.sources
        ensures raw in p.sources
      {
        var i :| 0 <= i < |previous| && previous[i] == was;
        var j :| 0 <= j < |desired| && desired[j] == p;
        assert GrowsInto(previous[i], desired) && raw in SourceSet(was) && raw in SourceSet(p);
      }
    }
    if OnlyGrows(previous, published, reserved) {
      forall i, j | 0 <= i < |previous| && 0 <= j < |desired| && desired[j].key == previous[i].key
        ensures SourceSet(previous[i]) <= SourceSet(desired[j])
      {
        assert previous[i] in previous && desired[j] in desired;
        forall raw | raw in SourceSet(previous[i])
          ensures raw in SourceSet(desired[j])
        {
          assert raw in previous[i].sources && raw in desired[j].sources;
        }
      }
    }
  }

  lemma GrowsAppend(a: seq<Peer>, b: seq<Peer>, published: seq<Peer>, reserved: set<Key>)
    ensures OnlyGrows(a + b, published, reserved) <==>
            OnlyGrows(a, published, reserved) && OnlyGrows(b, published, reserved)
  {
  }

  lemma RetirementsAllowedIff(s: Setting, g: Guard, reserved: set<Key>, previous: seq<Peer>, wanted: set<Key>)
    ensures RetirementsAllowed(s, g, reserved, previous, wanted) <==>
            forall p | p in previous && p.key !in wanted ::
              s.valid(p.key) && (p.key in reserved || Stands(s, g, reserved, p))
  {
    forall p: Peer
      ensures RetirementAllowed(s, g, reserved, p) <==>
              s.valid(p.key) && (p.key in reserved || Stands(s, g, reserved, p))
    {
      RetirementAllowedIff(s, g, reserved, p);
    }
    assert RetirementsAllowed(s, g, reserved, previous, wanted) <==>
           forall p | p in previous && p.key !in wanted :: RetirementAllowed(s, g, reserved, p);
  }

  /**
   What a pass asks of the publication and the files: a publication that can be planned, without
   a withdrawn key; no recorded source taken from an entry that stays; and of the first record of
   each other permission, that a journal owns its key or none of its addresses.
   */
  lemma ReconcilableIff(s: Setting, g: Guard, w: World, published: seq<Peer>)
    ensures Reconcilable(s, g, w, published) <==>
            && WellPlanned(s, g, w.reserved, published)
            && (forall p | p in published && p.key !in w.reserved :: p.key !in g.withdrawn)
            && OnlyGrows(Trail(w), published, w.reserved)
            && (forall p | First(Trail(w), p) && !Wanted(published, w.reserved, p.key) ::
                  s.valid(p.key) && (p.key in w.reserved || Stands(s, g, w.reserved, p)))
  {
    var desired := Ordinary(published, w.reserved);
    PlannableIff(s, g, w.reserved, published);
    forall key
      ensures key in Keys(desired) <==> Wanted(published, w.reserved, key)
    {
      WantedIff(published, w.reserved, key);
    }
    assert Keys(desired) !! g.withdrawn <==>
           forall p | p in published && p.key !in w.reserved :: p.key !in g.withdrawn;
    GrowsIff(MainPeers(w), published, w.reserved);
    GrowsIff(SecondSource(w), published, w.reserved);
    GrowsAppend(MainPeers(w), SecondSource(w), published, w.reserved);
    assert Trail(w) == MainPeers(w) + SecondSource(w);
    RetirementsAllowedIff(s, g, w.reserved, Previous(w), Keys(desired));
    forall p
      ensures p in Previous(w) <==> First(Trail(w), p)
    {
      PreviousIff(w, p);
    }
  }

  // ----- Retirement and withdrawal -----

  /** An earlier peer may be retired exactly when a journal owns its key, or none of its addresses. */
  lemma RetirementAllowedIff(s: Setting, g: Guard, reserved: set<Key>, p: Peer)
    ensures RetirementAllowed(s, g, reserved, p) <==>
            s.valid(p.key) && (p.key in reserved || Stands(s, g, reserved, p))
  {
    StandsIff(s, g, reserved, p);
  }

  /**
   A recorded variant of a withdrawn root may go exactly when its addresses belong to no published
   entry, no site transport and no other reserved root. The prefixes the journal of the root itself
   owns do not matter: taking them away changes nothing.
   */
  lemma VariantAllowedIff(s: Setting, g: Guard, reserved: set<Key>, current: seq<Peer>, p: Peer)
    ensures VariantAllowed(s, g, reserved, current, p) <==>
            && s.valid(p.key) && p.key !in g.transport && SelfContained(s, p)
            && !ShareAddress(PrefixesOf(s, p), g.shielded)
            && (forall root | root in reserved && root in g.owned && root != p.key ::
                  !ShareAddress(PrefixesOf(s, p), g.owned[root]))
            && (forall live | live in current ::
                  SelfContained(s, live) && !ShareAddress(PrefixesOf(s, p), PrefixesOf(s, live)))
    ensures VariantAllowed(s, g, reserved, current, p) <==>
            VariantAllowed(s, g.(owned := g.owned - {p.key}), reserved, current, p)
  {
    var without := g.(owned := g.owned - {p.key});
    SelfContainedIff(s, p);
    ApartIffClear(g, reserved - {p.key}, PrefixesOf(s, p));
    ApartIffClear(without, reserved - {p.key}, PrefixesOf(s, p));
    assert ClearOf(without, reserved - {p.key}, PrefixesOf(s, p)) <==> ClearOf(g, reserved - {p.key}, PrefixesOf(s, p));
    forall live: Peer
      ensures Parsable(s, live) && Authorized(s, live) <==> SelfContained(s, live)
      ensures Apart(PrefixesOf(s, p), PrefixesOf(s, live)) <==> !ShareAddress(PrefixesOf(s, p), PrefixesOf(s, live))
    {
      SelfContainedIff(s, live);
      ApartIffNoAddress(PrefixesOf(s, p), PrefixesOf(s, live));
    }
  }

  /** Every entry on record: the caller's, the checkpoint's and the sidecar's. */
  ghost predicate RecordedSomewhere(w: World, p: Peer) {
    || p in w.recorded
    || (w.main.Some? && p in w.main.value)
    || (w.sidecar.Some? &&
        (p in w.sidecar.value.peers || p in w.sidecar.value.retiring || p in w.sidecar.value.candidates))
  }

  /** What a withdrawal asks of the publication and the files. */
  lemma WithdrawableIff(s: Setting, g: Guard, w: World, root: Key, current: seq<Peer>)
    ensures Withdrawable(s, g, w, root, current) <==>
            && s.valid(root) && root in w.reserved && WellPlanned(s, g, w.reserved, current)
            && (forall p | p in current :: p.key != root)
            && (forall p | RecordedSomewhere(w, p) && p.key == root :: VariantAllowed(s, g, w.reserved, current, p))
  {
    PlannableIff(s, g, w.reserved, current);
    if root in Keys(current) {
      var i := KeyFrom(current, root);
    } else {
      forall p | p in current
        ensures p.key != root
      {
        var i :| 0 <= i < |current| && current[i] == p;
        IdentityHit(current, i);
      }
    }
    forall p
      ensures p in OnRecord(w) <==> RecordedSomewhere(w, p)
    {
    }
    assert VariantsAllowed(s, g, w.reserved, current, root, OnRecord(w)) <==>
           forall p | p in OnRecord(w) && p.key == root :: VariantAllowed(s, g, w.reserved, current, p);
  }

  // ----- The device -----

  /** A permission in `ids` names this key. */
  ghost predicate Listed(ids: set<Permission>, key: Key) {
    exists id :: id in ids && id.key == key
  }

  /**
   Peers can be retired exactly when none is the node's own, every permission can be read, every
   live one has the sources of one of its permissions, no two live ones share an address, and no
   other live peer shares one with any permission.
   */
  lemma RetirableIff(s: Setting, kernel: Kernel, ids: set<Permission>)
    ensures Retirable(s, kernel, ids) <==>
            && (forall id | id in ids :: id.key != s.own && WellFormed(s, id.sources))
            && (forall key | key in kernel && Listed(ids, key) :: Named(s, ids, key, kernel[key]))
            && (forall a, b | a in kernel && b in kernel && a != b && Listed(ids, a) && Listed(ids, b) ::
                  !ShareAddress(kernel[a], kernel[b]))
            && (forall b, id | b in kernel && !Listed(ids, b) && id in ids ::
                  !ShareAddress(kernel[b], Parsed(s, id.sources)))
  {
    forall x, y
      ensures Apart(x, y) <==> !ShareAddress(x, y)
    {
      ApartIffNoAddress(x, y);
    }
    assert forall key :: key in KeysOf(ids) <==> Listed(ids, key);
  }

  /** One entry can be installed: a foreign key, readable, unrefused, free addresses, and only gaining. */
  ghost predicate Installable(s: Setting, kernel: Kernel, p: Peer) {
    && p.key != s.own && s.resolves(p.endpoint)
    && |p.sources| > 0 && (forall raw | raw in p.sources :: s.parse(raw).Some?)
    && (forall q | q in PrefixesOf(s, p) :: q !in s.refused)
    && (forall other | other in kernel && other != p.key :: !ShareAddress(PrefixesOf(s, p), kernel[other]))
    && (p.key in kernel ==> forall q | q in kernel[p.key] :: q in PrefixesOf(s, p))
  }

  lemma InstallableIff(s: Setting, kernel: Kernel, p: Peer)
    ensures NeighborAllowed(s, kernel, p) <==> Installable(s, kernel, p)
  {
    forall other | other in kernel
      ensures Apart(PrefixesOf(s, p), kernel[other]) <==> !ShareAddress(PrefixesOf(s, p), kernel[other])
    {
      ApartIffNoAddress(PrefixesOf(s, p), kernel[other]);
    }
  }

  /** No two entries have the same key or share an address. */
  ghost predicate Disjoint(s: Setting, desired: seq<Peer>) {
    forall i, j | 0 <= i < j < |desired| ::
      desired[i].key != desired[j].key && !ShareAddress(PrefixesOf(s, desired[j]), PrefixesOf(s, desired[i]))
  }

  lemma {:induction false} NothingReserved(peers: seq<Peer>)
    ensures Ordinary(peers, {}) == peers
  {
    if peers != [] {
      NothingReserved(peers[..|peers| - 1]);
    }
  }

  lemma PartitionableAfterIff(s: Setting, kernel: Kernel, earlier: seq<Peer>, p: Peer)
    ensures PartitionableAfter(s, kernel, earlier, p) <==>
            && Installable(s, kernel, p)
            && forall i | 0 <= i < |earlier| ::
                 earlier[i].key != p.key && !ShareAddress(PrefixesOf(s, p), PrefixesOf(s, earlier[i]))
  {
    InstallableIff(s, kernel, p);
    NothingReserved(earlier);
    ApartIffSeparate(s, {}, earlier, PrefixesOf(s, p));
    KeyIff(earlier, p.key);
  }

  lemma DisjointAppend(s: Setting, front: seq<Peer>, last: Peer)
    ensures Disjoint(s, front + [last]) <==>
            && Disjoint(s, front)
            && forall i | 0 <= i < |front| ::
                 front[i].key != last.key && !ShareAddress(PrefixesOf(s, last), PrefixesOf(s, front[i]))
  {
    var all := front + [last];
    assert forall i | 0 <= i < |front| :: all[i] == front[i];
    assert all[|front|] == last;
  }

  /** An installation may touch the device exactly when every entry can be installed and no two collide. */
  lemma {:induction false} PartitionableIff(s: Setting, kernel: Kernel, desired: seq<Peer>)
    ensures Partitionable(s, kernel, desired) <==>
            (forall p | p in desired :: Installable(s, kernel, p)) && Disjoint(s, desired)
  {
    if desired != [] {
      var front, last := desired[..|desired| - 1], desired[|desired| - 1];
      PartitionableIff(s, kernel, front);
      PartitionableAfterIff(s, kernel, front, last);
      DisjointAppend(s, front, last);
      assert desired == front + [last];
    }
  }

  lemma KeyIff(peers: seq<Peer>, key: Key)
    ensures key in Keys(peers) <==> exists i :: 0 <= i < |peers| && peers[i].key == key
  {
    if key in Keys(peers) {
      var i := KeyFrom(peers, key);
    }
    if i :| 0 <= i < |peers| && peers[i].key == key {
      IdentityHit(peers, i);
    }
  }
}
