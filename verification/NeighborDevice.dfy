/**
 The neighbor host and the device planner agree.

 `NeighborCheckpoint` keeps only the accept lists of a device; `NeighborPartition` works on
 device listings and plans requests. On every listing of the host's device the planner's
 preflight gives the host's verdict, and its request has the effect of the host's installation.
 */
module NeighborDevice {
  import opened Options
  import opened Prefixes
  import opened NeighborSources
  import opened NeighborCheckpoint
  import D = DeviceDelta
  import P = NeighborPartition

  /** The default route is not a source. */
  ghost predicate NoDefault(s: Setting) {
    forall raw | s.parse(raw).Some? :: s.parse(raw).value.bits != []
  }

  /** The accept lists of a device. */
  function View(k: D.Kernel): Kernel {
    map q | q in k :: k[q].allowed
  }

  function Net(s: Setting, raw: Source): D.IPNet {
    match s.parse(raw)
    case Some(p) => D.IPNet(p.family, p.bits, |p.bits|)
    case None => D.IPNet(V4, [], 0)
  }

  function Nets(s: Setting, sources: seq<Source>): seq<D.IPNet> {
    if sources == [] then [] else Nets(s, sources[..|sources| - 1]) + [Net(s, sources[|sources| - 1])]
  }

  /** The entry as the planner takes it. */
  function AsNeighbor(s: Setting, p: Peer): P.Neighbor {
    P.Neighbor(p.key, true, false, if s.resolves(p.endpoint) then Some(p.endpoint) else None, Nets(s, p.sources))
  }

  function AsNeighbors(s: Setting, desired: seq<Peer>): seq<P.Neighbor> {
    if desired == [] then []
    else AsNeighbors(s, desired[..|desired| - 1]) + [AsNeighbor(s, desired[|desired| - 1])]
  }

  lemma {:induction false} NetsAt(s: Setting, sources: seq<Source>)
    ensures |Nets(s, sources)| == |sources|
    ensures forall i | 0 <= i < |sources| :: Nets(s, sources)[i] == Net(s, sources[i])
  {
    if sources != [] {
      NetsAt(s, sources[..|sources| - 1]);
    }
  }

  lemma {:induction false} CanonIff(nets: seq<D.IPNet>, q: Prefix)
    ensures q in D.Canon(nets) <==> exists i :: 0 <= i < |nets| && D.CanonicalPrefix(nets[i]) == q
  {
    if nets != [] {
      var front := nets[..|nets| - 1];
      CanonIff(front, q);
      assert forall i | 0 <= i < |front| :: front[i] == nets[i];
    }
  }

  lemma NetIsPrefix(s: Setting, raw: Source)
    requires s.parse(raw).Some?
    ensures D.CanonicalPrefix(Net(s, raw)) == s.parse(raw).value
  {
    var p := s.parse(raw).value;
    assert p.bits[..|p.bits|] == p.bits;
  }

  /** A readable entry's accept list is what its sources spell. */
  lemma CanonIsParsed(s: Setting, p: Peer)
    requires Parsable(s, p)
    ensures D.Canon(Nets(s, p.sources)) == PrefixesOf(s, p)
  {
    var nets := Nets(s, p.sources);
    NetsAt(s, p.sources);
    forall i | 0 <= i < |p.sources|
      ensures s.parse(p.sources[i]) == Some(D.CanonicalPrefix(nets[i]))
    {
      NetIsPrefix(s, p.sources[i]);
    }
    forall q
      ensures q in D.Canon(nets) <==> q in PrefixesOf(s, p)
    {
      CanonIff(nets, q);
      ParsedIffListed(s, p, q);
    }
  }

  lemma {:induction false} SameKeys(s: Setting, desired: seq<Peer>)
    ensures P.Keys(AsNeighbors(s, desired)) == Keys(desired)
  {
    if desired != [] {
      var front := desired[..|desired| - 1];
      SameKeys(s, front);
      assert AsNeighbors(s, desired)[..|AsNeighbors(s, front)|] == AsNeighbors(s, front);
    }
  }

  lemma {:induction false} SameSources(s: Setting, kernel: Kernel, desired: seq<Peer>)
    requires Partitionable(s, kernel, desired)
    ensures P.Sources(AsNeighbors(s, desired)) == AllPrefixes(s, desired)
  {
    if desired != [] {
      var front, last := desired[..|desired| - 1], desired[|desired| - 1];
      SameSources(s, kernel, front);
      CanonIsParsed(s, last);
      assert AsNeighbors(s, desired)[..|AsNeighbors(s, front)|] == AsNeighbors(s, front);
    }
  }

  lemma {:induction false} OtherSourcesIff(live: seq<D.Peer>, key: Key, q: Prefix)
    ensures q in P.OtherSources(live, key) <==>
            exists j :: 0 <= j < |live| && live[j].key != key && q in D.Canon(live[j].allowed)
  {
    if live != [] {
      var front := live[..|live| - 1];
      OtherSourcesIff(front, key, q);
      assert forall j | 0 <= j < |front| :: front[j] == live[j];
    }
  }

  lemma {:induction false} FindAt(live: seq<D.Peer>, j: nat)
    requires D.DistinctPeers(live) && j < |live|
    ensures D.Find(live, live[j].key) == Some(live[j])
  {
    if j < |live| - 1 {
      var front := live[..|live| - 1];
      assert front[j] == live[j];
      FindAt(front, j);
    }
  }

  lemma {:induction false} FoundAt(live: seq<D.Peer>, key: Key) returns (j: nat)
    requires D.Find(live, key).Some?
    ensures j < |live| && live[j].key == key && live[j] == D.Find(live, key).value
  {
    if live[|live| - 1].key == key {
      j := |live| - 1;
    } else {
      j := FoundAt(live[..|live| - 1], key);
    }
  }

  /** What the other live peers accept, listed or viewed. */
  lemma OthersAreOthers(k: D.Kernel, live: seq<D.Peer>, key: Key, q: Prefix)
    requires D.Snapshot(k, live)
    ensures q in P.OtherSources(live, key) <==> exists other :: other in k && other != key && q in k[other].allowed
  {
    OtherSourcesIff(live, key, q);
    if j :| 0 <= j < |live| && live[j].key != key && q in D.Canon(live[j].allowed) {
      FindAt(live, j);
      assert live[j].key in k && q in k[live[j].key].allowed;
    }
    if other :| other in k && other != key && q in k[other].allowed {
      var j := FoundAt(live, other);
    }
  }

  lemma ApartFromLiveIff(k: D.Kernel, live: seq<D.Peer>, key: Key, p: Prefix)
    requires D.Snapshot(k, live)
    ensures !P.OverlapsSome(p, P.OtherSources(live, key)) <==>
            forall other | other in k && other != key :: Apart({p}, k[other].allowed)
  {
    if !P.OverlapsSome(p, P.OtherSources(live, key)) {
      forall other, q | other in k && other != key && q in k[other].allowed
        ensures !Overlaps(p, q)
      {
        OthersAreOthers(k, live, key, q);
      }
    }
    if q :| q in P.OtherSources(live, key) && Overlaps(q, p) {
      OthersAreOthers(k, live, key, q);
      var other :| other in k && other != key && q in k[other].allowed;
      assert !Apart({p}, k[other].allowed);
    }
  }

  /** One source of an entry, judged by the planner and by the host. */
  ghost predicate SourceAllowed(s: Setting, k: D.Kernel, key: Key, earlier: set<Prefix>, q: Prefix) {
    && q !in s.refused && Apart({q}, earlier)
    && forall other | other in k && other != key :: Apart({q}, k[other].allowed)
  }

  lemma SourceAllowedIff(s: Setting, k: D.Kernel, live: seq<D.Peer>, key: Key, earlier: set<Prefix>, raw: Source)
    requires D.Snapshot(k, live) && NoDefault(s)
    ensures P.EntryAllowed(Net(s, raw), key, earlier, live, s.refused) <==>
            s.parse(raw).Some? && SourceAllowed(s, k, key, earlier, s.parse(raw).value)
  {
    if s.parse(raw).Some? {
      NetIsPrefix(s, raw);
      ApartFromLiveIff(k, live, key, s.parse(raw).value);
    }
  }

  lemma SourcesAllowedIff(s: Setting, k: D.Kernel, key: Key, prefixes: set<Prefix>, earlier: set<Prefix>)
    ensures (forall q | q in prefixes :: SourceAllowed(s, k, key, earlier, q)) <==>
            prefixes !! s.refused && Apart(prefixes, earlier) && ApartFromLive(View(k), key, prefixes)
  {
    if forall q | q in prefixes :: SourceAllowed(s, k, key, earlier, q) {
      forall q, other | q in prefixes && other in View(k) && other != key
        ensures Apart({q}, View(k)[other])
      {
        assert SourceAllowed(s, k, key, earlier, q) && other in k;
      }
      forall q, x | q in prefixes && x in earlier
        ensures !Overlaps(q, x)
      {
        assert SourceAllowed(s, k, key, earlier, q) && q in {q};
      }
      forall other | other in View(k) && other != key
        ensures Apart(prefixes, View(k)[other])
      {
        forall q, x | q in prefixes && x in View(k)[other]
          ensures !Overlaps(q, x)
        {
          assert Apart({q}, View(k)[other]) && q in {q};
        }
      }
    }
    if prefixes !! s.refused && Apart(prefixes, earlier) && ApartFromLive(View(k), key, prefixes) {
      forall q | q in prefixes
        ensures SourceAllowed(s, k, key, earlier, q)
      {
        forall other | other in k && other != key
          ensures Apart({q}, k[other].allowed)
        {
          assert other in View(k) && Apart(prefixes, View(k)[other]);
        }
      }
    }
  }

  lemma EntriesAllowedIff(s: Setting, k: D.Kernel, live: seq<D.Peer>, p: Peer, earlier: set<Prefix>)
    requires D.Snapshot(k, live) && NoDefault(s) && p.sources != []
    ensures P.EntriesAllowed(Nets(s, p.sources), p.key, earlier, live, s.refused) <==>
            Parsable(s, p) && forall q | q in PrefixesOf(s, p) :: SourceAllowed(s, k, p.key, earlier, q)
  {
    NetsAt(s, p.sources);
    forall i | 0 <= i < |p.sources|
      ensures P.EntryAllowed(Nets(s, p.sources)[i], p.key, earlier, live, s.refused) <==>
              s.parse(p.sources[i]).Some? && SourceAllowed(s, k, p.key, earlier, s.parse(p.sources[i]).value)
    {
      SourceAllowedIff(s, k, live, p.key, earlier, p.sources[i]);
    }
    forall q
      ensures q in PrefixesOf(s, p) <==> exists i :: 0 <= i < |p.sources| && s.parse(p.sources[i]) == Some(q)
    {
      ParsedIffListed(s, p, q);
    }
  }

  lemma NeighborAllowedIff(s: Setting, k: D.Kernel, live: seq<D.Peer>, front: seq<Peer>, p: Peer)
    requires D.Snapshot(k, live) && NoDefault(s) && Partitionable(s, View(k), front)
    ensures P.NeighborAllowed(AsNeighbor(s, p), AsNeighbors(s, front), live, s.own, s.refused) <==>
            PartitionableAfter(s, View(k), front, p)
  {
    SameKeys(s, front);
    SameSources(s, View(k), front);
    NetsAt(s, p.sources);
    if p.sources != [] {
      var earlier := AllPrefixes(s, front);
      EntriesAllowedIff(s, k, live, p, earlier);
      SourcesAllowedIff(s, k, p.key, PrefixesOf(s, p), earlier);
      assert P.EntriesAllowed(Nets(s, p.sources), p.key, earlier, live, s.refused) <==>
             Parsable(s, p) && PrefixesOf(s, p) !! s.refused && Apart(PrefixesOf(s, p), earlier) &&
             ApartFromLive(View(k), p.key, PrefixesOf(s, p));
      GrowthIff(s, k, live, p);
    }
  }

  lemma GrowthIff(s: Setting, k: D.Kernel, live: seq<D.Peer>, p: Peer)
    requires D.Snapshot(k, live)
    ensures Parsable(s, p) ==>
              ((D.Find(live, p.key).Some? ==>
                  D.Canon(D.Find(live, p.key).value.allowed) <= D.Canon(Nets(s, p.sources))) <==>
               (p.key in View(k) ==> View(k)[p.key] <= PrefixesOf(s, p)))
  {
    if Parsable(s, p) {
      CanonIsParsed(s, p);
    }
  }

  /** On every listing of the device the planner admits exactly what the host admits. */
  lemma {:induction false} AdmittedIffPartitionable(s: Setting, k: D.Kernel, live: seq<D.Peer>, desired: seq<Peer>)
    requires D.Snapshot(k, live) && NoDefault(s)
    ensures P.Admitted(AsNeighbors(s, desired), live, s.own, s.refused) <==> Partitionable(s, View(k), desired)
  {
    if desired != [] {
      var front, last := desired[..|desired| - 1], desired[|desired| - 1];
      AdmittedIffPartitionable(s, k, live, front);
      assert AsNeighbors(s, desired)[..|AsNeighbors(s, front)|] == AsNeighbors(s, front);
      if Partitionable(s, View(k), front) {
        NeighborAllowedIff(s, k, live, front, last);
      }
    }
  }

  lemma {:induction false} AsNeighborsAt(s: Setting, desired: seq<Peer>, i: nat)
    requires i < |desired|
    ensures |AsNeighbors(s, desired)| == |desired| && AsNeighbors(s, desired)[i] == AsNeighbor(s, desired[i])
  {
    var front := desired[..|desired| - 1];
    if i < |front| {
      AsNeighborsAt(s, front, i);
      assert front[i] == desired[i];
    } else if front != [] {
      AsNeighborsAt(s, front, 0);
    }
  }

  lemma AllAsNeighbors(s: Setting, desired: seq<Peer>)
    ensures |AsNeighbors(s, desired)| == |desired|
    ensures forall i | 0 <= i < |desired| :: AsNeighbors(s, desired)[i] == AsNeighbor(s, desired[i])
  {
    forall i | 0 <= i < |desired|
      ensures |AsNeighbors(s, desired)| == |desired| && AsNeighbors(s, desired)[i] == AsNeighbor(s, desired[i])
    {
      AsNeighborsAt(s, desired, i);
    }
  }

  lemma NamedAreKeys(s: Setting, desired: seq<Peer>, wanted: seq<D.PeerConfig>)
    requires P.Describes(wanted, AsNeighbors(s, desired))
    ensures D.Named(wanted) == Keys(desired)
  {
    AllAsNeighbors(s, desired);
    forall key
      ensures key in D.Named(wanted) <==> key in Keys(desired)
    {
      D.NamedIff(wanted, key);
      if key in D.Named(wanted) {
        var i :| 0 <= i < |wanted| && wanted[i].key == key;
        IdentityHit(desired, i);
      }
      if key in Keys(desired) {
        var i := KeyFrom(desired, key);
        assert wanted[i].key == key;
      }
    }
  }

  /** The device after an admitted plan, viewed by its accept lists. */
  lemma GainedOnlyAdds(s: Setting, t: D.Kernel, k: D.Kernel, desired: seq<Peer>, wanted: seq<D.PeerConfig>)
    requires P.OnlyGained(t, k, wanted) && P.Describes(wanted, AsNeighbors(s, desired))
    requires forall i | 0 <= i < |desired| :: Parsable(s, desired[i])
    ensures OnlyAdds(s, View(t), View(k), desired)
  {
    NamedAreKeys(s, desired, wanted);
    AllAsNeighbors(s, desired);
    forall i | 0 <= i < |desired|
      ensures desired[i].key in View(t) && View(t)[desired[i].key] == PrefixesOf(s, desired[i])
    {
      assert P.Gained(t, k, wanted[i]);
      CanonIsParsed(s, desired[i]);
    }
  }

  lemma OnlyAddsIsUnique(s: Setting, a: Kernel, b: Kernel, before: Kernel, desired: seq<Peer>)
    requires OnlyAdds(s, a, before, desired) && OnlyAdds(s, b, before, desired)
    ensures a == b
  {
    forall q | q in a
      ensures q in b && a[q] == b[q]
    {
      if q in Keys(desired) {
        var i := KeyFrom(desired, q);
      }
    }
    assert forall q | q in b :: q in a;
  }

  /**
   Applied to the whole device, the request planned for an admitted partition leaves exactly the
   accept lists that the host's entry-by-entry installation leaves; by `InstalledOnlyAdds` it
   takes no source from anyone.
   */
  lemma DeltaInstallsDesired(s: Setting, k: D.Kernel, delta: D.Config, desired: seq<Peer>, live: D.Device,
                             handshakes: map<Key, int>, now: int, keepalive: nat)
    requires D.Snapshot(k, live.peers) && NoDefault(s) && Partitionable(s, View(k), desired)
    requires P.PartitionPlan(delta, AsNeighbors(s, desired), live, handshakes, now, keepalive)
    ensures View(D.ApplyPeers(k, delta.peers)) == Installed(s, View(k), desired)
  {
    var peers := AsNeighbors(s, desired);
    var wanted := P.Wanted(peers, live.peers, handshakes, now, keepalive);
    AdmittedIffPartitionable(s, k, live.peers, desired);
    P.PlanOnlyAdds(k, delta, peers, live, s.own, s.refused, handshakes, now, keepalive);
    P.WantedDescribes(peers, live.peers, handshakes, now, keepalive);
    forall i | 0 <= i < |desired|
      ensures Parsable(s, desired[i])
    {
      PartitionableAt(s, View(k), desired, i);
    }
    GainedOnlyAdds(s, D.ApplyPeers(k, delta.peers), k, desired, wanted);
    InstalledOnlyAdds(s, View(k), desired);
    OnlyAddsIsUnique(s, View(D.ApplyPeers(k, delta.peers)), Installed(s, View(k), desired), View(k), desired);
  }
}
