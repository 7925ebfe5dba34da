/**
 The ordinary-neighbor checkpoint and its retiring sidecar on a host that can crash between
 any two writes or kernel calls.

 The sidecar is written before the checkpoint it protects and cleared only after native
 readback, so that in every crash state each installed ordinary peer is named, with exactly its
 sources, by the checkpoint or the sidecar. Retirement can then always recognise it. The device
 holds prefixes, each with one owner; an admitted pass takes none from anyone.
 */
module NeighborCheckpoint {
  import opened Options
  import opened Prefixes
  import opened NeighborSources

  datatype Sidecar = Sidecar(peers: seq<Peer>, retiring: seq<Peer>, candidates: seq<Peer>)

  /**
   What survives a crash: the two files, the older forwarding cache, the permissions that
   journals record for their reserved keys, and the device's peers.
   */
  datatype World = World(main: Option<seq<Peer>>, sidecar: Option<Sidecar>, legacy: seq<Peer>,
                         reserved: set<Key>, recorded: seq<Peer>, kernel: Kernel)

  function MainPeers(w: World): seq<Peer> {
    if w.main.Some? then w.main.value else []
  }

  function SecondSource(w: World): seq<Peer> {
    if w.sidecar.Some? then w.sidecar.value.retiring + w.sidecar.value.candidates else w.legacy
  }

  /** The permissions a pass starts from; the older cache counts only until a sidecar exists. */
  function Known(w: World): set<Permission> {
    Identities(MainPeers(w)) +
    if w.sidecar.Some? then Identities(w.sidecar.value.retiring) + Identities(w.sidecar.value.candidates)
    else Identities(w.legacy)
  }

  /** An installed peer is recorded with exactly its sources. */
  predicate Recognised(s: Setting, w: World, key: Key)
    requires key in w.kernel
  {
    Named(s, if key in w.reserved then Identities(w.recorded) else Known(w), key, w.kernel[key])
  }

  /** One owner per prefix. */
  ghost predicate Exclusive(kernel: Kernel) {
    forall a, b | a in kernel && b in kernel && a != b :: kernel[a] !! kernel[b]
  }

  /** Every installed peer is recognised, except perhaps the `lost` ones. */
  ghost predicate Good(s: Setting, w: World, lost: set<Key>) {
    && Exclusive(w.kernel)
    && forall key | key in w.kernel :: w.kernel[key] != {} && (key in lost || Recognised(s, w, key))
  }

  ghost predicate AllGood(s: Setting, trace: seq<World>, lost: set<Key>) {
    forall i {:trigger Good(s, trace[i], lost)} | 0 <= i < |trace| :: Good(s, trace[i], lost)
  }

  lemma MoreLost(s: Setting, trace: seq<World>, lost: set<Key>, more: set<Key>)
    requires AllGood(s, trace, lost) && lost <= more
    ensures AllGood(s, trace, more)
  {
    forall i | 0 <= i < |trace|
      ensures Good(s, trace[i], more)
    {
      assert Good(s, trace[i], lost);
    }
  }

  // ----- Planning a pass -----

  predicate Distinct(peers: seq<Peer>) {
    forall i, j | 0 <= i < j < |peers| :: Identity(peers[i]) != Identity(peers[j])
  }

  lemma DistinctAppend(peers: seq<Peer>, p: Peer)
    requires Distinct(peers) && Identity(p) !in Identities(peers)
    ensures Distinct(peers + [p])
  {
    forall i | 0 <= i < |peers| ensures Identity(peers[i]) != Identity(p) {
      IdentityHit(peers, i);
    }
  }

  /** `known` and then each permission of `prior` not known yet; the first entry of a permission stands for it. */
  function Merged(known: seq<Peer>, prior: seq<Peer>): seq<Peer> {
    if prior == [] then known
    else
      var front, last := Merged(known, prior[..|prior| - 1]), prior[|prior| - 1];
      if Identity(last) in Identities(front) then front else front + [last]
  }

  /** The permissions a pass starts from, in the order it reads them. */
  function Previous(w: World): seq<Peer> {
    Merged(Merged([], MainPeers(w)), SecondSource(w))
  }

  method Accumulate(known: seq<Peer>, prior: seq<Peer>) returns (all: seq<Peer>)
    requires Distinct(known)
    ensures all == Merged(known, prior)
    ensures Identities(all) == Identities(known) + Identities(prior) && Distinct(all)
  {
    all := known;
    for k := 0 to |prior|
      invariant all == Merged(known, prior[..k]) && Distinct(all)
      invariant forall id :: id in Identities(all) <==> id in Identities(known) || id in Identities(prior[..k])
    {
      assert prior[..k + 1][..k] == prior[..k];
      if Identity(prior[k]) !in Identities(all) {
        DistinctAppend(all, prior[k]);
        all := all + [prior[k]];
        assert all[..|all| - 1] + [prior[k]] == all;
      }
    }
    assert prior[..|prior|] == prior;
  }

  function OfKeys(ids: set<Permission>, keys: set<Key>): set<Permission> {
    set id | id in ids && id.key in keys
  }

  function NotOfKeys(ids: set<Permission>, keys: set<Key>): set<Permission> {
    set id | id in ids && id.key !in keys
  }

  /** Every permission of a wanted key that the device could have, before or after the pass. */
  method SelectCandidates(all: seq<Peer>, wanted: set<Key>) returns (candidates: seq<Peer>)
    ensures Identities(candidates) == OfKeys(Identities(all), wanted) && Distinct(candidates)
  {
    candidates := [];
    for k := 0 to |all|
      invariant Distinct(candidates)
      invariant forall id :: id in Identities(candidates) <==> id in Identities(all[..k]) && id.key in wanted
    {
      assert all[..k + 1][..k] == all[..k];
      if all[k].key in wanted && Identity(all[k]) !in Identities(candidates) {
        DistinctAppend(candidates, all[k]);
        candidates := candidates + [all[k]];
        assert candidates[..|candidates| - 1] + [all[k]] == candidates;
      }
    }
    assert all[..|all|] == all;
  }

  /** An earlier peer may be retired: a journal owns it, or it is an entry that could be planned today. */
  predicate RetirementAllowed(s: Setting, g: Guard, reserved: set<Key>, p: Peer) {
    s.valid(p.key) && (p.key in reserved || EntryAllowed(s, g, Shield(g, reserved), p))
  }

  predicate RetirementsAllowed(s: Setting, g: Guard, reserved: set<Key>, previous: seq<Peer>, wanted: set<Key>) {
    forall i | 0 <= i < |previous| && previous[i].key !in wanted :: RetirementAllowed(s, g, reserved, previous[i])
  }

  /** Recorded ordinary permissions whose key is no longer wanted, unless one of them meets a journal. */
  method PlanRetirements(s: Setting, g: Guard, reserved: set<Key>, previous: seq<Peer>, wanted: set<Key>)
    returns (retiring: Option<seq<Peer>>)
    ensures retiring.Some? <==> RetirementsAllowed(s, g, reserved, previous, wanted)
    ensures retiring.Some? ==> Identities(retiring.value) == NotOfKeys(Identities(previous), wanted + reserved)
  {
    var result: seq<Peer> := [];
    for k := 0 to |previous|
      invariant RetirementsAllowed(s, g, reserved, previous[..k], wanted)
      invariant forall id :: id in Identities(result) <==>
                  id in Identities(previous[..k]) && id.key !in wanted + reserved
    {
      assert previous[..k + 1][..k] == previous[..k];
      if previous[k].key in wanted {
        continue;
      }
      if !RetirementAllowed(s, g, reserved, previous[k]) {
        return None;
      }
      if previous[k].key !in reserved {
        result := result + [previous[k]];
        assert result[..|result| - 1] + [previous[k]] == result;
      }
    }
    assert previous[..|previous|] == previous;
    return Some(result);
  }

  predicate GrowsInto(p: Peer, desired: seq<Peer>) {
    forall j | 0 <= j < |desired| && desired[j].key == p.key :: SourceSet(p) <= SourceSet(desired[j])
  }

  predicate Grows(previous: seq<Peer>, desired: seq<Peer>) {
    forall i | 0 <= i < |previous| :: GrowsInto(previous[i], desired)
  }

  /** A retained peer may gain sources but not lose one, as spelled. */
  method ValidateGrowth(previous: seq<Peer>, desired: seq<Peer>) returns (ok: bool)
    requires DistinctKeys(desired)
    ensures ok <==> Grows(previous, desired)
  {
    var wanted: map<Key, set<Source>> := map[];
    for k := 0 to |desired|
      invariant forall j | 0 <= j < k :: desired[j].key in wanted && wanted[desired[j].key] == SourceSet(desired[j])
      invariant forall key | key in wanted :: exists j :: 0 <= j < k && desired[j].key == key
    {
      wanted := wanted[desired[k].key := SourceSet(desired[k])];
    }
    for i := 0 to |previous|
      invariant forall i' | 0 <= i' < i :: GrowsInto(previous[i'], desired)
    {
      var p := previous[i];
      if p.key !in wanted {
        continue;
      }
      ghost var j :| 0 <= j < |desired| && desired[j].key == p.key;
      var sources := p.sources;
      for s := 0 to |sources|
        invariant forall s' | 0 <= s' < s :: sources[s'] in wanted[p.key]
      {
        if sources[s] !in wanted[p.key] {
          assert sources[s] in SourceSet(p);
          assert !GrowsInto(p, desired);
          return false;
        }
      }
      assert SourceSet(p) <= wanted[p.key];
    }
    return true;
  }

  // ----- What the device does -----

  /** Giving prefixes to a peer takes them from whoever had them. */
  function Assigned(kernel: Kernel, key: Key, prefixes: set<Prefix>): Kernel {
    (map q | q in kernel && q != key :: kernel[q] - prefixes)[key := prefixes]
  }

  function Installed(s: Setting, kernel: Kernel, desired: seq<Peer>): Kernel {
    if desired == [] then kernel
    else
      var last := desired[|desired| - 1];
      Assigned(Installed(s, kernel, desired[..|desired| - 1]), last.key, PrefixesOf(s, last))
  }

  /** No live peer but `key` itself shares an address with the prefixes. */
  predicate ApartFromLive(kernel: Kernel, key: Key, prefixes: set<Prefix>) {
    forall q | q in kernel && q != key :: Apart(prefixes, kernel[q])
  }

  /** What native installation asks of one entry. */
  predicate NeighborAllowed(s: Setting, kernel: Kernel, p: Peer) {
    && p.key != s.own && s.resolves(p.endpoint) && Parsable(s, p)
    && PrefixesOf(s, p) !! s.refused && ApartFromLive(kernel, p.key, PrefixesOf(s, p))
    && (p.key in kernel ==> kernel[p.key] <= PrefixesOf(s, p))
  }

  /** Native installation may touch the device. */
  predicate Partitionable(s: Setting, kernel: Kernel, desired: seq<Peer>) {
    desired == [] ||
    (Partitionable(s, kernel, desired[..|desired| - 1]) &&
     PartitionableAfter(s, kernel, desired[..|desired| - 1], desired[|desired| - 1]))
  }

  predicate PartitionableAfter(s: Setting, kernel: Kernel, earlier: seq<Peer>, p: Peer) {
    p.key !in Keys(earlier) && NeighborAllowed(s, kernel, p) && Apart(PrefixesOf(s, p), AllPrefixes(s, earlier))
  }

  lemma {:induction false} PartitionableAt(s: Setting, kernel: Kernel, desired: seq<Peer>, k: nat)
    requires Partitionable(s, kernel, desired) && k < |desired|
    ensures PartitionableAfter(s, kernel, desired[..k], desired[k])
  {
    var front := desired[..|desired| - 1];
    if k < |front| {
      PartitionableAt(s, kernel, front, k);
      assert front[..k] == desired[..k] && front[k] == desired[k];
    }
  }

  lemma NothingTaken(kernel: Kernel, key: Key, prefixes: set<Prefix>)
    requires forall q | q in kernel && q != key :: kernel[q] !! prefixes
    ensures Assigned(kernel, key, prefixes) == kernel[key := prefixes]
  {
    forall q | q in kernel && q != key
      ensures kernel[q] - prefixes == kernel[q]
    {
    }
  }

  /** The device after an installation that takes nothing from anyone. */
  ghost predicate OnlyAdds(s: Setting, now: Kernel, before: Kernel, desired: seq<Peer>) {
    && (forall q :: q in now <==> q in before || q in Keys(desired))
    && (forall q | q in before && q !in Keys(desired) :: now[q] == before[q])
    && (forall i | 0 <= i < |desired| :: desired[i].key in now && now[desired[i].key] == PrefixesOf(s, desired[i]))
  }

  /** The sources of the next entry are nobody else's at that point. */
  lemma NextIsFree(s: Setting, before: Kernel, now: Kernel, front: seq<Peer>, p: Peer)
    requires OnlyAdds(s, now, before, front) && PartitionableAfter(s, before, front, p)
    ensures forall q | q in now && q != p.key :: now[q] !! PrefixesOf(s, p)
  {
    forall q | q in now && q != p.key
      ensures now[q] !! PrefixesOf(s, p)
    {
      if q in Keys(front) {
        var i := KeyFrom(front, q);
        AllPrefixesHit(s, front, i);
        ApartIsDisjoint(PrefixesOf(s, p), AllPrefixes(s, front));
      } else {
        ApartIsDisjoint(PrefixesOf(s, p), before[q]);
      }
    }
  }

  lemma OneMoreAdded(s: Setting, before: Kernel, now: Kernel, next: Kernel, front: seq<Peer>, p: Peer)
    requires OnlyAdds(s, now, before, front) && p.key !in Keys(front)
    requires forall q :: q in next <==> q in now || q == p.key
    requires forall q | q in next :: next[q] == if q == p.key then PrefixesOf(s, p) else now[q]
    ensures OnlyAdds(s, next, before, front + [p])
  {
    KeysAppend(front, p);
    var all := front + [p];
    forall i | 0 <= i < |all|
      ensures all[i].key in next && next[all[i].key] == PrefixesOf(s, all[i])
    {
      if i < |front| {
        IdentityHit(front, i);
        assert all[i] == front[i];
      }
    }
  }

  lemma OnlyAddsNext(s: Setting, before: Kernel, now: Kernel, front: seq<Peer>, p: Peer)
    requires OnlyAdds(s, now, before, front) && p.key !in Keys(front)
    requires forall q | q in now && q != p.key :: now[q] !! PrefixesOf(s, p)
    ensures OnlyAdds(s, Assigned(now, p.key, PrefixesOf(s, p)), before, front + [p])
  {
    NothingTaken(now, p.key, PrefixesOf(s, p));
    OneMoreAdded(s, before, now, now[p.key := PrefixesOf(s, p)], front, p);
  }

  /** An admitted installation takes no source from anyone and gives each entry exactly its own. */
  lemma {:induction false} InstalledOnlyAdds(s: Setting, kernel: Kernel, desired: seq<Peer>)
    requires Partitionable(s, kernel, desired)
    ensures OnlyAdds(s, Installed(s, kernel, desired), kernel, desired)
  {
    if desired != [] {
      var front, last := desired[..|desired| - 1], desired[|desired| - 1];
      InstalledOnlyAdds(s, kernel, front);
      NextIsFree(s, kernel, Installed(s, kernel, front), front, last);
      OnlyAddsNext(s, kernel, Installed(s, kernel, front), front, last);
      assert front + [last] == desired;
    }
  }

  // ----- Each write keeps every installed peer recorded -----

  /** Nothing a pass may find in the kernel is missing from the new sidecar. */
  lemma SidecarIsComplete(known: set<Permission>, wanted: set<Key>, reserved: set<Key>, retiring: set<Permission>,
                          candidates: set<Permission>, id: Permission)
    requires id in known && id.key !in reserved
    requires retiring == NotOfKeys(known, wanted + reserved)
    requires OfKeys(known, wanted) <= candidates
    ensures id in retiring + candidates
  {
  }

  /** Every ordinary peer the first files name is still named. */
  ghost predicate Replaces(s: Setting, w: World, lost: set<Key>, known: set<Permission>) {
    forall key | key in w.kernel && key !in w.reserved && key !in lost && Named(s, Known(w), key, w.kernel[key]) ::
      Named(s, known, key, w.kernel[key])
  }

  lemma KeepingIdsReplaces(s: Setting, w: World, lost: set<Key>, known: set<Permission>)
    requires forall id | id in Known(w) && id.key in w.kernel && id.key !in w.reserved :: id in known
    ensures Replaces(s, w, lost, known)
  {
    forall key | key in w.kernel && key !in w.reserved && Named(s, Known(w), key, w.kernel[key])
      ensures Named(s, known, key, w.kernel[key])
    {
      MoreNames(s, Known(w), known, key, w.kernel[key]);
    }
  }

  /** Changing only the files is safe when every ordinary peer that is not lost is still named. */
  lemma FilesGood(s: Setting, before: World, after: World, lost: set<Key>)
    requires Good(s, before, lost) && Replaces(s, before, lost, Known(after))
    requires after == before.(main := after.main, sidecar := after.sidecar)
    ensures Good(s, after, lost)
  {
    forall key | key in after.kernel
      ensures after.kernel[key] != {} && (key in lost || Recognised(s, after, key))
    {
      assert Recognised(s, before, key) || key in lost;
    }
  }

  lemma RemovalGood(s: Setting, w: World, key: Key, lost: set<Key>)
    requires Good(s, w, lost)
    ensures Good(s, w.(kernel := w.kernel - {key}), lost)
  {
    var t := w.(kernel := w.kernel - {key});
    forall q | q in t.kernel
      ensures t.kernel[q] != {} && (q in lost || Recognised(s, t, q))
    {
      assert Recognised(s, w, q) || q in lost;
    }
  }

  lemma InstallGood(s: Setting, w: World, key: Key, prefixes: set<Prefix>, lost: set<Key>)
    requires Good(s, w, lost) && prefixes != {} && key !in w.reserved
    requires key in lost || Named(s, Known(w), key, prefixes)
    requires forall q | q in w.kernel && q != key :: w.kernel[q] !! prefixes
    ensures Good(s, w.(kernel := Assigned(w.kernel, key, prefixes)), lost)
  {
    NothingTaken(w.kernel, key, prefixes);
    var t := w.(kernel := w.kernel[key := prefixes]);
    forall q | q in t.kernel
      ensures t.kernel[q] != {} && (q in lost || Recognised(s, t, q))
    {
      if q != key {
        assert Recognised(s, w, q) || q in lost;
      }
    }
  }

  /** Both files name the pass: the main one its peers, the sidecar only wanted candidates. */
  ghost predicate Checkpointed(w: World, desired: seq<Peer>) {
    && w.main == Some(desired) && w.sidecar.Some? && w.sidecar.value.peers == desired
    && (forall id | id in Identities(w.sidecar.value.candidates) :: id.key in Keys(desired))
    && (forall id | id in Identities(w.sidecar.value.retiring) :: id.key !in Keys(desired) && id.key !in w.reserved)
  }

  lemma SidecarKeepsPeers(s: Setting, before: World, after: World, lost: set<Key>, desired: seq<Peer>)
    requires after == before.(sidecar := after.sidecar) && after.sidecar.Some?
    requires Identities(after.sidecar.value.retiring) == NotOfKeys(Known(before), Keys(desired) + before.reserved)
    requires Identities(after.sidecar.value.candidates) == OfKeys(Known(before) + Identities(desired), Keys(desired))
    ensures Replaces(s, before, lost, Known(after))
  {
    forall id | id in Known(before) && id.key !in before.reserved
      ensures id in Known(after)
    {
      SidecarIsComplete(Known(before), Keys(desired), before.reserved, Identities(after.sidecar.value.retiring),
                        Identities(after.sidecar.value.candidates), id);
    }
    KeepingIdsReplaces(s, before, lost, Known(after));
  }

  /** Once the sidecar names everything, the old checkpoint is no longer needed. */
  lemma MainKeepsPeers(s: Setting, start: World, before: World, lost: set<Key>, desired: seq<Peer>)
    requires before == start.(sidecar := before.sidecar) && before.sidecar.Some?
    requires Identities(before.sidecar.value.retiring) == NotOfKeys(Known(start), Keys(desired) + start.reserved)
    requires Identities(before.sidecar.value.candidates) == OfKeys(Known(start) + Identities(desired), Keys(desired))
    ensures Replaces(s, before, lost, Known(before.(main := Some(desired))))
  {
    var after := before.(main := Some(desired));
    forall id | id in Known(before) && id.key !in before.reserved
      ensures id in Known(after)
    {
      if id in Identities(MainPeers(start)) {
        SidecarIsComplete(Known(start), Keys(desired), start.reserved, Identities(before.sidecar.value.retiring),
                          Identities(before.sidecar.value.candidates), id);
      }
    }
    KeepingIdsReplaces(s, before, lost, Known(after));
  }

  /** The sidecar, then the checkpoint: every peer stays named after each write. */
  lemma BothWritesAreGood(s: Setting, w: World, lost: set<Key>, desired: seq<Peer>, retiring: seq<Peer>,
                          candidates: seq<Peer>)
    requires Good(s, w, lost) && Identities(retiring) == NotOfKeys(Known(w), Keys(desired) + w.reserved)
    requires Identities(candidates) == OfKeys(Known(w) + Identities(desired), Keys(desired))
    ensures var middle := w.(sidecar := Some(Sidecar(desired, retiring, candidates)));
            Good(s, middle, lost) && Good(s, middle.(main := Some(desired)), lost)
  {
    var middle := w.(sidecar := Some(Sidecar(desired, retiring, candidates)));
    SidecarKeepsPeers(s, w, middle, lost, desired);
    FilesGood(s, w, middle, lost);
    MainKeepsPeers(s, w, middle, lost, desired);
    FilesGood(s, middle, middle.(main := Some(desired)), lost);
  }

  /** Retiring entries may be dropped once their keys are gone from the device. */
  lemma RetirementKeepsPeers(s: Setting, before: World, after: World, lost: set<Key>)
    requires before.sidecar.Some? && before.kernel.Keys !! Keys(before.sidecar.value.retiring)
    requires after == before.(sidecar := Some(before.sidecar.value.(retiring := [])))
    ensures Replaces(s, before, lost, Known(after))
  {
    forall id | id in Known(before) && id.key in before.kernel
      ensures id in Known(after)
    {
      if id in Identities(before.sidecar.value.retiring) {
        IdentityKey(before.sidecar.value.retiring, id);
      }
    }
    KeepingIdsReplaces(s, before, lost, Known(after));
  }

  /** Native readback: the installed peer has exactly these sources. */
  predicate ReadsBack(s: Setting, kernel: Kernel, p: Peer) {
    p.key in kernel && Denotes(s, multiset(p.sources), kernel[p.key])
  }

  predicate AllReadBack(s: Setting, kernel: Kernel, desired: seq<Peer>) {
    forall i | 0 <= i < |desired| :: ReadsBack(s, kernel, desired[i])
  }

  /** After readback the checkpoint alone names every installed ordinary peer. */
  lemma ClearKeepsPeers(s: Setting, before: World, after: World, lost: set<Key>, desired: seq<Peer>)
    requires Checkpointed(before, desired) && before.sidecar.value.retiring == []
    requires AllReadBack(s, before.kernel, desired)
    requires after == before.(sidecar := Some(Sidecar(desired, [], [])))
    ensures Replaces(s, before, lost, Known(after))
    ensures forall key | key in before.kernel && key !in before.reserved && Recognised(s, before, key) ::
              key in Keys(desired)
  {
    forall key | key in before.kernel && key !in before.reserved && Named(s, Known(before), key, before.kernel[key])
      ensures Named(s, Known(after), key, before.kernel[key]) && key in Keys(desired)
    {
      var id :| id in Known(before) && id.key == key && Denotes(s, id.sources, before.kernel[key]);
      if id in Identities(desired) {
        IdentityKey(desired, id);
      }
      var i := KeyFrom(desired, key);
      IdentityHit(desired, i);
      assert Identity(desired[i]) in Known(after);
    }
  }

  // ----- Retirement always recognises what it finds -----

  /** In a checkpointed state a recognised peer to retire has one of the recorded source sets. */
  lemma RetirementRecognises(s: Setting, w: World, desired: seq<Peer>, key: Key)
    requires Checkpointed(w, desired) && key in w.kernel && key in Keys(w.sidecar.value.retiring)
    requires Recognised(s, w, key)
    ensures Named(s, Identities(w.sidecar.value.retiring), key, w.kernel[key])
  {
    var i := KeyFrom(w.sidecar.value.retiring, key);
    IdentityHit(w.sidecar.value.retiring, i);
    forall id | id in Known(w) && id.key == key
      ensures id in Identities(w.sidecar.value.retiring)
    {
      if id in Identities(desired) {
        IdentityKey(desired, id);
      }
    }
    MoreNames(s, Known(w), Identities(w.sidecar.value.retiring), key, w.kernel[key]);
  }

  /** An installed ordinary peer is either to be retired or to be kept, never both. */
  lemma ExactlyOneList(s: Setting, w: World, desired: seq<Peer>, key: Key)
    requires Checkpointed(w, desired) && key in w.kernel && key !in w.reserved && Recognised(s, w, key)
    ensures var kept := Identities(w.sidecar.value.candidates) + Identities(desired);
            Named(s, Identities(w.sidecar.value.retiring), key, w.kernel[key]) <==> !Named(s, kept, key, w.kernel[key])
    ensures Named(s, Identities(w.sidecar.value.retiring), key, w.kernel[key]) <==> key !in Keys(desired)
  {
    var kept := Identities(w.sidecar.value.candidates) + Identities(desired);
    forall id | id in Identities(desired)
      ensures id.key in Keys(desired)
    {
      IdentityKey(desired, id);
    }
    var id :| id in Known(w) && id.key == key && Denotes(s, id.sources, w.kernel[key]);
    assert id in kept || id in Identities(w.sidecar.value.retiring);
  }

  /** Growth as spelled is growth of what is spelled. */
  lemma RecordedIsWithin(s: Setting, prefixes: set<Prefix>, key: Key, list: seq<Peer>, desired: seq<Peer>, j: nat)
    requires Named(s, Identities(list), key, prefixes) && Grows(list, desired) && j < |desired| && desired[j].key == key
    ensures prefixes <= PrefixesOf(s, desired[j])
  {
    var id :| id in Identities(list) && id.key == key && Denotes(s, id.sources, prefixes);
    var i := IdentityFrom(list, id);
    assert GrowsInto(list[i], desired);
    forall q | q in prefixes
      ensures q in PrefixesOf(s, desired[j])
    {
      var raw :| raw in id.sources && s.parse(raw) == Some(q);
      assert raw in list[i].sources && raw in SourceSet(list[i]);
      assert raw in SourceSet(desired[j]) && raw in multiset(desired[j].sources);
    }
  }

  /** A pass that passes the growth check never takes a source from a peer it retains. */
  lemma RetainedOnlyGains(s: Setting, w: World, desired: seq<Peer>, j: nat)
    requires j < |desired| && desired[j].key in w.kernel && desired[j].key !in w.reserved
    requires Recognised(s, w, desired[j].key)
    requires Grows(MainPeers(w), desired) && Grows(SecondSource(w), desired)
    ensures w.kernel[desired[j].key] <= PrefixesOf(s, desired[j])
  {
    var key := desired[j].key;
    if w.sidecar.Some? {
      IdentitiesAppend(w.sidecar.value.retiring, w.sidecar.value.candidates);
    }
    var id :| id in Known(w) && id.key == key && Denotes(s, id.sources, w.kernel[key]);
    if id in Identities(MainPeers(w)) {
      RecordedIsWithin(s, w.kernel[key], key, MainPeers(w), desired, j);
    } else {
      RecordedIsWithin(s, w.kernel[key], key, SecondSource(w), desired, j);
    }
  }

  // ----- Withdrawal -----

  function Without(peers: seq<Peer>, root: Key): seq<Peer> {
    if peers == [] then []
    else Without(peers[..|peers| - 1], root) + if peers[|peers| - 1].key == root then [] else [peers[|peers| - 1]]
  }

  lemma {:induction false} WithoutIdentity(peers: seq<Peer>, root: Key, id: Permission)
    ensures id in Identities(Without(peers, root)) <==> id in Identities(peers) && id.key != root
    ensures root !in Keys(Without(peers, root))
  {
    if peers != [] {
      var front, last := peers[..|peers| - 1], peers[|peers| - 1];
      WithoutIdentity(front, root, id);
      if last.key == root {
        assert Without(peers, root) == Without(front, root);
      } else {
        var all := Without(peers, root);
        assert all[..|all| - 1] == Without(front, root);
      }
    }
  }

  lemma WithoutIdentities(peers: seq<Peer>, root: Key)
    ensures forall id :: id in Identities(Without(peers, root)) <==> id in Identities(peers) && id.key != root
    ensures root !in Keys(Without(peers, root))
  {
    forall id
      ensures id in Identities(Without(peers, root)) <==> id in Identities(peers) && id.key != root
    {
      WithoutIdentity(peers, root, id);
    }
    WithoutIdentity(peers, root, Permission(root, multiset{}));
  }

  /** Neither file names `root` any more. */
  ghost predicate Forgotten(w: World, root: Key) {
    && root !in Keys(MainPeers(w)) && w.sidecar.Some?
    && root !in Keys(w.sidecar.value.peers) && root !in Keys(w.sidecar.value.retiring)
    && root !in Keys(w.sidecar.value.candidates)
  }

  function Forgetting(c: Sidecar, root: Key): Sidecar {
    Sidecar(Without(c.peers, root), Without(c.retiring, root), Without(c.candidates, root))
  }

  lemma SidecarForgets(s: Setting, before: World, lost: set<Key>, root: Key)
    requires before.sidecar.Some? && root in before.reserved && root !in Keys(MainPeers(before))
    ensures var after := before.(sidecar := Some(Forgetting(before.sidecar.value, root)));
            && Replaces(s, before, lost, Known(after)) && Forgotten(after, root)
            && forall id | id in Known(before) && id.key != root :: id in Known(after)
  {
    WithoutIdentities(before.sidecar.value.peers, root);
    WithoutIdentities(before.sidecar.value.retiring, root);
    WithoutIdentities(before.sidecar.value.candidates, root);
    KeepingIdsReplaces(s, before, lost, Known(before.(sidecar := Some(Forgetting(before.sidecar.value, root)))));
  }

  /** Every entry on record, in the order a withdrawal reads them. */
  function OnRecord(w: World): seq<Peer> {
    w.recorded + MainPeers(w) +
    if w.sidecar.Some? then w.sidecar.value.peers + w.sidecar.value.retiring + w.sidecar.value.candidates else []
  }

  /** The recorded permissions of one root. */
  function RootVariants(w: World, root: Key): set<Permission> {
    OfKeys(Identities(OnRecord(w)), {root})
  }

  /**
   A recorded variant of the root may go: it meets no other journal, and no published entry has
   an address in common with it.
   */
  predicate VariantAllowed(s: Setting, g: Guard, reserved: set<Key>, current: seq<Peer>, p: Peer) {
    && s.valid(p.key) && EntryAllowed(s, g, Shield(g, reserved - {p.key}), p)
    && forall j | 0 <= j < |current| ::
         Parsable(s, current[j]) && Authorized(s, current[j]) && Apart(PrefixesOf(s, p), PrefixesOf(s, current[j]))
  }

  predicate VariantsAllowed(s: Setting, g: Guard, reserved: set<Key>, current: seq<Peer>, root: Key, list: seq<Peer>) {
    forall i | 0 <= i < |list| && list[i].key == root :: VariantAllowed(s, g, reserved, current, list[i])
  }

  /** What a withdrawal asks of the files and the publication before it writes anything. */
  predicate Withdrawable(s: Setting, g: Guard, w: World, root: Key, current: seq<Peer>) {
    && s.valid(root) && Plannable(s, g, w.reserved, current) && root in w.reserved && root !in Keys(current)
    && VariantsAllowed(s, g, w.reserved, current, root, OnRecord(w))
  }

  /** The recorded variants of `root`, unless one of them meets a published or reserved owner. */
  method SelectVariants(s: Setting, g: Guard, reserved: set<Key>, current: seq<Peer>, root: Key, list: seq<Peer>)
    returns (selected: Option<seq<Peer>>)
    ensures selected.Some? <==> VariantsAllowed(s, g, reserved, current, root, list)
    ensures selected.Some? ==> Identities(selected.value) == OfKeys(Identities(list), {root})
    ensures selected.Some? ==> Keys(selected.value) <= {root}
  {
    var result: seq<Peer> := [];
    for k := 0 to |list|
      invariant VariantsAllowed(s, g, reserved, current, root, list[..k])
      invariant forall id :: id in Identities(result) <==> id in Identities(list[..k]) && id.key == root
      invariant Keys(result) <= {root}
    {
      assert list[..k + 1][..k] == list[..k];
      if list[k].key == root {
        if !VariantAllowed(s, g, reserved, current, list[k]) {
          return None;
        }
        result := result + [list[k]];
        assert result[..|result| - 1] + [list[k]] == result;
      }
    }
    assert list[..|list|] == list;
    return Some(result);
  }

  /** Appends the permissions the list does not name yet. */
  method AddMissing(listed: seq<Peer>, selected: seq<Peer>) returns (all: seq<Peer>)
    ensures listed <= all && Identities(all) == Identities(listed) + Identities(selected)
  {
    all := listed;
    for k := 0 to |selected|
      invariant listed <= all
      invariant forall id :: id in Identities(all) <==> id in Identities(listed) || id in Identities(selected[..k])
    {
      assert selected[..k + 1][..k] == selected[..k];
      if Identity(selected[k]) !in Identities(all) {
        all := all + [selected[k]];
        assert all[..|all| - 1] + [selected[k]] == all;
      }
    }
    assert selected[..|selected|] == selected;
  }

  lemma RecordedIsOnRecord(w: World, id: Permission)
    requires id in Identities(w.recorded)
    ensures id in Identities(OnRecord(w))
  {
    var i := IdentityFrom(w.recorded, id);
    assert OnRecord(w)[i] == w.recorded[i];
    IdentityHit(OnRecord(w), i);
  }

  /** A recognised peer of a reserved root is always among the variants to retire. */
  lemma RootIsSelected(s: Setting, w: World, root: Key, selected: seq<Peer>)
    requires root in w.reserved && Identities(selected) == RootVariants(w, root)
    ensures root in w.kernel && Recognised(s, w, root) ==> root in Keys(selected)
  {
    if root in w.kernel && Recognised(s, w, root) {
      var id :| id in Identities(w.recorded) && id.key == root && Denotes(s, id.sources, w.kernel[root]);
      RecordedIsOnRecord(w, id);
      IdentityKey(selected, id);
    }
  }

  /** The ordinary peers that only the older cache names, which counts until a sidecar exists. */
  function CacheOnly(s: Setting, w: World): set<Key> {
    set key | key in w.kernel && w.sidecar.None? && key !in w.reserved
              && !Named(s, Identities(MainPeers(w)), key, w.kernel[key])
  }

  lemma IntentKeepsPeers(s: Setting, before: World, intent: Sidecar, lost: set<Key>)
    requires Good(s, before, lost) && CacheOnly(s, before) <= lost
    requires before.sidecar.Some? ==> intent.candidates == before.sidecar.value.candidates
    requires before.sidecar.Some? ==> Identities(before.sidecar.value.retiring) <= Identities(intent.retiring)
    ensures Good(s, before.(sidecar := Some(intent)), lost)
  {
    var after := before.(sidecar := Some(intent));
    forall key | key in before.kernel && key !in before.reserved && key !in lost
                 && Named(s, Known(before), key, before.kernel[key])
      ensures Named(s, Known(after), key, before.kernel[key])
    {
      if before.sidecar.Some? {
        MoreNames(s, Known(before), Known(after), key, before.kernel[key]);
      } else {
        assert key !in CacheOnly(s, before);
        MoreNames(s, Identities(MainPeers(before)), Known(after), key, before.kernel[key]);
      }
    }
    FilesGood(s, before, after, lost);
  }

  /**
   The first sidecar is written by a withdrawal without losing a peer exactly when the older
   cache is not needed: it names only the withdrawn root's variants, and from then on that cache
   is not consulted.
   */
  lemma FirstSidecarIsSafeIff(s: Setting, before: World, root: Key, current: seq<Peer>, retiring: seq<Peer>)
    requires Good(s, before, {}) && before.sidecar.None? && root in before.reserved
    requires forall id | id in Identities(retiring) :: id.key == root
    ensures Good(s, before.(sidecar := Some(Sidecar(current, retiring, []))), {}) <==> CacheOnly(s, before) == {}
  {
    var after := before.(sidecar := Some(Sidecar(current, retiring, [])));
    if CacheOnly(s, before) == {} {
      IntentKeepsPeers(s, before, after.sidecar.value, {});
    }
    if Good(s, after, {}) {
      forall key | key in before.kernel && key !in before.reserved
        ensures Named(s, Identities(MainPeers(before)), key, before.kernel[key])
      {
        assert Recognised(s, after, key);
        MoreNames(s, Known(after), Identities(MainPeers(before)), key, before.kernel[key]);
      }
    }
  }

  /** The checkpoint names every device state of an unreserved peer that the older cache names. */
  ghost predicate CheckpointSubsumesCache(s: Setting, w: World) {
    forall id | id in Identities(w.legacy) && id.key !in w.reserved && WellFormed(s, id.sources) ::
      Named(s, Identities(MainPeers(w)), id.key, Parsed(s, id.sources))
  }

  /** Writing this sidecar keeps the peers of such a device named. */
  ghost predicate SafeOn(s: Setting, w: World, next: Sidecar, kernel: Kernel) {
    Good(s, w.(kernel := kernel), {}) ==> Good(s, w.(kernel := kernel, sidecar := Some(next)), {})
  }

  lemma SubsumedIsSafe(s: Setting, w: World, next: Sidecar, kernel: Kernel)
    requires w.sidecar.None? && CheckpointSubsumesCache(s, w)
    ensures SafeOn(s, w, next, kernel)
  {
    var before := w.(kernel := kernel);
    if Good(s, before, {}) {
      forall key | key in CacheOnly(s, before)
        ensures Named(s, Identities(MainPeers(w)), key, kernel[key])
      {
        assert Recognised(s, before, key);
        var id :| id in Known(before) && id.key == key && Denotes(s, id.sources, kernel[key]);
      }
      assert CacheOnly(s, before) == {};
      IntentKeepsPeers(s, before, next, {});
    }
  }

  /** A device with one peer. */
  function OnePeer(key: Key, prefixes: set<Prefix>): (kernel: Kernel)
    ensures forall q :: q in kernel <==> q == key
    ensures kernel[key] == prefixes
  {
    map[key := prefixes]
  }

  lemma ForgottenOn(s: Setting, w: World, root: Key, next: Sidecar, id: Permission)
    requires w.sidecar.None? && root in w.reserved && next.candidates == []
    requires forall other | other in Identities(next.retiring) :: other.key == root
    requires id in Identities(w.legacy) && id.key !in w.reserved && WellFormed(s, id.sources)
    requires !Named(s, Identities(MainPeers(w)), id.key, Parsed(s, id.sources))
    ensures !SafeOn(s, w, next, OnePeer(id.key, Parsed(s, id.sources)))
  {
    var kernel := OnePeer(id.key, Parsed(s, id.sources));
    var before, after := w.(kernel := kernel), w.(kernel := kernel, sidecar := Some(next));
    var raw :| raw in id.sources;
    assert s.parse(raw).value in Parsed(s, id.sources);
    assert id in Known(before) && Denotes(s, id.sources, kernel[id.key]);
    assert Recognised(s, before, id.key) && Good(s, before, {});
    if Recognised(s, after, id.key) {
      MoreNames(s, Known(after), Identities(MainPeers(w)), id.key, kernel[id.key]);
    }
  }

  /**
   Judged from the files alone: the first sidecar of a withdrawal is safe on every device they may
   describe exactly when the checkpoint names whatever the older cache names.
   */
  lemma FilesDecideFirstSidecar(s: Setting, w: World, root: Key, next: Sidecar)
    requires w.sidecar.None? && root in w.reserved && next.candidates == []
    requires forall id | id in Identities(next.retiring) :: id.key == root
    ensures CheckpointSubsumesCache(s, w) <==> forall kernel :: SafeOn(s, w, next, kernel)
  {
    if CheckpointSubsumesCache(s, w) {
      forall kernel
        ensures SafeOn(s, w, next, kernel)
      {
        SubsumedIsSafe(s, w, next, kernel);
      }
    } else {
      var id :| id in Identities(w.legacy) && id.key !in w.reserved && WellFormed(s, id.sources)
                && !Named(s, Identities(MainPeers(w)), id.key, Parsed(s, id.sources));
      ForgottenOn(s, w, root, next, id);
    }
  }

  // ----- What native retirement admits -----

  function KeysOf(ids: set<Permission>): set<Key> {
    set id | id in ids :: id.key
  }

  lemma {:induction false} KeysAreKeysOf(peers: seq<Peer>)
    ensures Keys(peers) == KeysOf(Identities(peers))
  {
    if peers != [] {
      KeysAreKeysOf(peers[..|peers| - 1]);
    }
  }

  /** The retiring peers' live sources are apart, and nobody else's live source meets a recorded one. */
  predicate Separate(s: Setting, kernel: Kernel, ids: set<Permission>) {
    && (forall a, b | a in kernel && b in kernel && a != b && a in KeysOf(ids) && b in KeysOf(ids) ::
          Apart(kernel[a], kernel[b]))
    && (forall b, id | b in kernel && b !in KeysOf(ids) && id in ids :: Apart(kernel[b], Parsed(s, id.sources)))
  }

  /** Every installed peer of these keys has one of the recorded source sets. */
  predicate AllRecorded(s: Setting, kernel: Kernel, ids: set<Permission>) {
    forall key | key in kernel && key in KeysOf(ids) :: Named(s, ids, key, kernel[key])
  }

  predicate Retirable(s: Setting, kernel: Kernel, ids: set<Permission>) {
    && (forall id | id in ids :: id.key != s.own && WellFormed(s, id.sources))
    && AllRecorded(s, kernel, ids) && Separate(s, kernel, ids)
  }

  /** What a pass may have to retire. */
  function Unwanted(w: World, wanted: set<Key>): set<Permission> {
    NotOfKeys(Known(w), wanted + w.reserved)
  }

  /** While nothing is lost, a pass recognises everything it has to retire. */
  lemma EveryRetiringRecognised(s: Setting, w: World, wanted: set<Key>, lost: set<Key>)
    requires Good(s, w, lost) && w.kernel.Keys !! lost
    ensures AllRecorded(s, w.kernel, Unwanted(w, wanted))
  {
    forall key | key in w.kernel && key in KeysOf(Unwanted(w, wanted))
      ensures Named(s, Unwanted(w, wanted), key, w.kernel[key])
    {
      assert Recognised(s, w, key);
      MoreNames(s, Known(w), Unwanted(w, wanted), key, w.kernel[key]);
    }
  }

  /** What native retirement may do: peers of these keys go, nothing else changes. */
  ghost predicate OnlyRemoves(now: Kernel, before: Kernel, keys: set<Key>) {
    && (forall q | q in now :: q in before && now[q] == before[q])
    && (forall q | q in before && q !in keys :: q in now)
  }

  lemma AllRemoved(now: Kernel, before: Kernel, keys: set<Key>)
    requires OnlyRemoves(now, before, keys) && now.Keys !! keys
    ensures now == before - keys
  {
    assert forall q :: q in now <==> q in before && q !in keys;
  }

  /** Nobody loses a source. */
  ghost predicate NoneLoses(now: Kernel, before: Kernel) {
    forall q | q in before :: q in now && before[q] <= now[q]
  }

  /** Peers outside `keys` are as they were. */
  ghost predicate SameOutside(now: Kernel, before: Kernel, keys: set<Key>) {
    forall q | q in before && q !in keys :: q in now && now[q] == before[q]
  }

  lemma {:induction false} PartitionableSoFar(s: Setting, kernel: Kernel, desired: seq<Peer>, k: nat)
    requires Partitionable(s, kernel, desired) && k <= |desired|
    ensures Partitionable(s, kernel, desired[..k])
  {
    if k < |desired| {
      PartitionableSoFar(s, kernel, desired[..|desired| - 1], k);
      assert desired[..|desired| - 1][..k] == desired[..k];
    } else {
      assert desired[..k] == desired;
    }
  }

  /** At each entry of an admitted installation its sources are nobody else's. */
  lemma InstallStep(s: Setting, before: Kernel, desired: seq<Peer>, k: nat)
    requires Partitionable(s, before, desired) && k < |desired|
    ensures var now := Installed(s, before, desired[..k]);
            && (forall q | q in now && q != desired[k].key :: now[q] !! PrefixesOf(s, desired[k]))
            && Installed(s, before, desired[..k + 1]) == Assigned(now, desired[k].key, PrefixesOf(s, desired[k]))
    ensures Parsable(s, desired[k])
  {
    assert desired[..k + 1][..k] == desired[..k];
    PartitionableAt(s, before, desired, k);
    PartitionableSoFar(s, before, desired, k);
    InstalledOnlyAdds(s, before, desired[..k]);
    NextIsFree(s, before, Installed(s, before, desired[..k]), desired[..k], desired[k]);
  }

  /** Wherever an admitted installation stops, nobody has lost a source and nobody else has changed. */
  lemma InstalledKeeps(s: Setting, before: Kernel, desired: seq<Peer>, k: nat)
    requires Partitionable(s, before, desired) && k <= |desired|
    ensures NoneLoses(Installed(s, before, desired[..k]), before)
    ensures SameOutside(Installed(s, before, desired[..k]), before, Keys(desired))
  {
    PartitionableSoFar(s, before, desired, k);
    InstalledOnlyAdds(s, before, desired[..k]);
    AddsLoseNothing(s, Installed(s, before, desired[..k]), before, desired, k);
  }

  lemma AddsLoseNothing(s: Setting, now: Kernel, before: Kernel, desired: seq<Peer>, k: nat)
    requires k <= |desired| && OnlyAdds(s, now, before, desired[..k]) && Partitionable(s, before, desired)
    ensures NoneLoses(now, before) && SameOutside(now, before, Keys(desired))
  {
    forall q | q in before
      ensures q in now && before[q] <= now[q] && (q !in Keys(desired) ==> now[q] == before[q])
    {
      if q in Keys(desired[..k]) {
        var i := KeyFrom(desired[..k], q);
        assert desired[..k][i] == desired[i];
        IdentityHit(desired, i);
        PartitionableAt(s, before, desired, i);
      }
    }
  }

  /** Readback notices exactly the entries that spell a prefix twice. */
  lemma InstalledReadsBackIff(s: Setting, now: Kernel, before: Kernel, desired: seq<Peer>)
    requires OnlyAdds(s, now, before, desired) && forall i | 0 <= i < |desired| :: Parsable(s, desired[i])
    ensures AllReadBack(s, now, desired) <==> ListsOnce(s, desired)
  {
    forall i | 0 <= i < |desired|
      ensures ReadsBack(s, now, desired[i]) <==> Once(s, desired[i])
    {
      WellFormedIff(s, desired[i]);
    }
  }

  /** An admitted installation is read back exactly when its entries spell no prefix twice. */
  lemma AdmittedReadsBackIff(s: Setting, before: Kernel, desired: seq<Peer>)
    requires Partitionable(s, before, desired)
    ensures AllReadBack(s, Installed(s, before, desired), desired) <==> ListsOnce(s, desired)
  {
    InstalledOnlyAdds(s, before, desired);
    forall i | 0 <= i < |desired|
      ensures Parsable(s, desired[i])
    {
      PartitionableAt(s, before, desired, i);
    }
    InstalledReadsBackIff(s, Installed(s, before, desired), before, desired);
  }

  lemma ParsableHasPrefix(s: Setting, p: Peer)
    requires Parsable(s, p)
    ensures PrefixesOf(s, p) != {}
  {
    ParsedIffListed(s, p, s.parse(p.sources[0]).value);
  }

  /**
   A device keeps each prefix once. A peer that is new to the records is recognised after its
   installation exactly when its entry spells no prefix twice; nothing checks that beforehand.
   */
  lemma InstalledIsRecordedIff(s: Setting, w: World, p: Peer)
    requires Good(s, w, {}) && p.key !in w.reserved && Parsable(s, p) && Identity(p) in Known(w)
    requires forall id | id in Known(w) && id.key == p.key :: id == Identity(p)
    requires forall q | q in w.kernel && q != p.key :: w.kernel[q] !! PrefixesOf(s, p)
    ensures Good(s, w.(kernel := Assigned(w.kernel, p.key, PrefixesOf(s, p))), {}) <==> Once(s, p)
    ensures ReadsBack(s, Assigned(w.kernel, p.key, PrefixesOf(s, p)), p) <==> Once(s, p)
  {
    var t := w.(kernel := Assigned(w.kernel, p.key, PrefixesOf(s, p)));
    ParsableHasPrefix(s, p);
    WellFormedIff(s, p);
    if Once(s, p) {
      assert Denotes(s, Identity(p).sources, PrefixesOf(s, p));
      InstallGood(s, w, p.key, PrefixesOf(s, p), {});
    }
    if Good(s, t, {}) {
      assert p.key in t.kernel && Recognised(s, t, p.key);
    }
  }

  // ----- Concrete inputs -----

  const LOWER := "2001:db8::/32"
  const UPPER := "2001:DB8::/32"
  const SAMPLE := Prefix(V6, [false, false, true])

  lemma SpellingsDiffer()
    ensures LOWER != UPPER
  {
    assert LOWER[5] != UPPER[5];
  }

  /** A host that reads both spellings as one prefix and prints the lower one. */
  function Reader(): Setting {
    Setting("own", (key: Key) => true, (raw: Source) => if raw == LOWER || raw == UPPER then Some(SAMPLE) else None,
            (p: Prefix) => LOWER, (host: string) => None, (endpoint: string) => true, {})
  }

  lemma OnlyIdentity(p: Peer)
    ensures Identities([p]) == {Identity(p)} && Keys([p]) == {p.key}
  {
    assert [p][..0] == [];
  }

  /** A checkpointed host about to install its one entry. */
  lemma Awaiting(s: Setting, p: Peer) returns (w: World)
    ensures w == World(Some([p]), Some(Sidecar([p], [], [p])), [], {}, [], map[])
    ensures Good(s, w, {}) && Checkpointed(w, [p]) && Known(w) == {Identity(p)}
  {
    w := World(Some([p]), Some(Sidecar([p], [], [p])), [], {}, [], map[]);
    OnlyIdentity(p);
  }

  /** A publication that lists one source twice leaves a peer no record recognises. */
  lemma RepeatedSourceIsLost() returns (s: Setting, w: World, p: Peer)
    ensures Good(s, w, {}) && Checkpointed(w, [p]) && p.key !in w.reserved && p.sources == [LOWER, LOWER]
    ensures var kernel := Assigned(w.kernel, p.key, PrefixesOf(s, p));
            !Good(s, w.(kernel := kernel), {}) && !ReadsBack(s, kernel, p)
  {
    s, p := Reader(), Peer("peer", "", [], [LOWER, LOWER]);
    w := Awaiting(s, p);
    assert !Once(s, p) by { assert s.parse(p.sources[0]) == s.parse(p.sources[1]); }
    InstalledIsRecordedIff(s, w, p);
  }

  /** So does one that spells a prefix in two ways, although no two of its sources are the same string. */
  lemma TwoSpellingsAreLost() returns (s: Setting, w: World, p: Peer)
    ensures Sound(s) && Good(s, w, {}) && Checkpointed(w, [p]) && p.key !in w.reserved
    ensures p.sources == [LOWER, UPPER] && LOWER != UPPER
    ensures var kernel := Assigned(w.kernel, p.key, PrefixesOf(s, p));
            !Good(s, w.(kernel := kernel), {}) && !ReadsBack(s, kernel, p)
  {
    SpellingsDiffer();
    s, p := Reader(), Peer("peer", "", [], [LOWER, UPPER]);
    w := Awaiting(s, p);
    assert !Once(s, p) by { assert s.parse(p.sources[0]) == s.parse(p.sources[1]); }
    InstalledIsRecordedIff(s, w, p);
  }

  /** One source in another spelling than the kernel's: the device may be configured, the pass never succeeds. */
  lemma UnusualSpellingNeverSettles() returns (s: Setting, g: Guard, p: Peer)
    ensures Sound(s) && Plannable(s, g, {}, [p]) && Partitionable(s, map[], [p])
    ensures Once(s, p) && !WellSpelled(s, [p])
  {
    SpellingsDiffer();
    s, g, p := Reader(), Guard({}, {}, map[], {}), Peer("peer", "", [], [UPPER]);
    assert [p][..0] == [];
    assert "peer" != "own" by { assert |"peer"| == 4 && |"own"| == 3; }
    assert Shield(g, {}) == {};
    assert PlannedAfter(s, g, {}, [], p) && PartitionableAfter(s, map[], [], p);
    assert s.spell(s.parse(p.sources[0]).value) == LOWER && LOWER !in p.sources;
    assert !SpelledWithin(s, [p], [p][0]);
  }

  /** The same prefix in another spelling counts as a withdrawn source. */
  lemma RespellingIsRefused() returns (s: Setting, before: Peer, after: Peer)
    ensures before.key == after.key && PrefixesOf(s, before) == PrefixesOf(s, after) && !Grows([before], [after])
  {
    SpellingsDiffer();
    s, before, after := Reader(), Peer("peer", "", [], [LOWER]), Peer("peer", "", [], [UPPER]);
    assert LOWER in multiset(before.sources) && UPPER in multiset(after.sources);
    assert PrefixesOf(s, before) == {SAMPLE} == PrefixesOf(s, after);
    assert before.sources[0] in SourceSet(before) && LOWER !in SourceSet(after);
    assert !GrowsInto([before][0], [after]) by { assert [after][0].key == before.key; }
  }

  /** A migrated host, one peer known only to the older cache, and a withdrawal before any pass. */
  lemma FirstSidecarCanForgetPeer() returns (s: Setting, before: World, after: World)
    ensures Good(s, before, {}) && before.sidecar.None? && "root" in before.reserved
    ensures after == before.(sidecar := Some(Sidecar([], [], [])))
    ensures !Good(s, after, {})
  {
    s := Reader();
    var p := Peer("omitted", "", [], [LOWER]);
    before := World(Some([]), None, [p], {"root"}, [], OnePeer("omitted", {SAMPLE}));
    after := before.(sidecar := Some(Sidecar([], [], [])));
    OnlyIdentity(p);
    assert "omitted" != "root" by { assert |"omitted"| == 7 && |"root"| == 4; }
    assert LOWER in multiset(p.sources) && PrefixesOf(s, p) == {SAMPLE};
    WellFormedIff(s, p);
    assert Denotes(s, Identity(p).sources, {SAMPLE}) && Identity(p) in Known(before);
    assert Recognised(s, before, "omitted");
    assert !Recognised(s, after, "omitted");
  }

  // ----- The order of a withdrawal -----

  ghost predicate SidecarStays(trace: seq<World>, n: nat, m: nat, sidecar: Option<Sidecar>) {
    forall k | n <= k < m && k < |trace| :: trace[k].sidecar == sidecar
  }

  /** Every permission that may be retired is in the intent on disk. */
  ghost predicate Intended(w: World, ids: set<Permission>) {
    w.sidecar.Some? && ids <= Identities(w.sidecar.value.retiring)
  }

  ghost predicate IntendedFrom(trace: seq<World>, n: nat, m: nat, ids: set<Permission>) {
    forall k | n <= k < m && k < |trace| :: Intended(trace[k], ids)
  }

  /** Where the states before a success end: a successful withdrawal forgets the root in its last one. */
  ghost function Before(trace: seq<World>, ok: bool): nat {
    if ok && trace != [] then |trace| - 1 else |trace|
  }

  /** What was written last before a stretch that keeps the sidecar is intended throughout. */
  lemma SinceWritten(trace: seq<World>, n: nat, m: nat, intent: Sidecar, ids: set<Permission>)
    requires n < |trace| && trace[n].sidecar == Some(intent) && ids <= Identities(intent.retiring)
    requires SidecarStays(trace, n + 1, m, Some(intent))
    ensures IntendedFrom(trace, n, m, ids)
  {
  }

  // ----- The host -----

  /** What a pass asks of the files and the publication before it writes anything. */
  predicate Reconcilable(s: Setting, g: Guard, w: World, published: seq<Peer>) {
    var desired := Ordinary(published, w.reserved);
    && Plannable(s, g, w.reserved, published) && Keys(desired) !! g.withdrawn
    && Grows(MainPeers(w), desired) && Grows(SecondSource(w), desired)
    && RetirementsAllowed(s, g, w.reserved, Previous(w), Keys(desired))
  }

  /** What the device and the spelling must allow for the native part of a pass. */
  predicate NativelyAllowed(s: Setting, kernel: Kernel, retiring: set<Permission>, desired: seq<Peer>) {
    && Retirable(s, kernel, retiring) && Partitionable(s, kernel - KeysOf(retiring), desired)
    && WellSpelled(s, desired) && ListsOnce(s, desired)
  }

  lemma ClearedIsGood(s: Setting, w: World, lost: set<Key>, desired: seq<Peer>)
    requires Good(s, w, lost) && Checkpointed(w, desired) && w.sidecar.value.retiring == []
    requires AllReadBack(s, w.kernel, desired)
    ensures Good(s, w.(sidecar := Some(Sidecar(desired, [], []))), lost)
    ensures w.kernel.Keys <= Keys(desired) + w.reserved + lost
  {
    var after := w.(sidecar := Some(Sidecar(desired, [], [])));
    ClearKeepsPeers(s, w, after, lost, desired);
    FilesGood(s, w, after, lost);
    forall key | key in w.kernel
      ensures key in Keys(desired) + w.reserved + lost
    {
      assert key in lost || Recognised(s, w, key);
    }
  }

  lemma NoReservedRetiring(w: World, desired: seq<Peer>)
    requires Checkpointed(w, desired)
    ensures Keys(w.sidecar.value.retiring) !! w.reserved
  {
    forall key | key in Keys(w.sidecar.value.retiring)
      ensures key !in w.reserved
    {
      var i := KeyFrom(w.sidecar.value.retiring, key);
      IdentityHit(w.sidecar.value.retiring, i);
    }
  }

  lemma ReservedIsGood(s: Setting, w: World, p: Peer, lost: set<Key>)
    requires Good(s, w, lost) && (p.key in w.kernel ==> Denotes(s, multiset(p.sources), w.kernel[p.key]))
    ensures Good(s, w.(reserved := w.reserved + {p.key}, recorded := w.recorded + [p]), lost)
  {
    var t := w.(reserved := w.reserved + {p.key}, recorded := w.recorded + [p]);
    assert t.recorded[..|t.recorded| - 1] == w.recorded;
    forall q | q in t.kernel
      ensures t.kernel[q] != {} && (q in lost || Recognised(s, t, q))
    {
      if q == p.key {
        assert Identity(p) in Identities(t.recorded);
      } else if q !in lost {
        assert Recognised(s, w, q);
        if q in w.reserved {
          MoreNames(s, Identities(w.recorded), Identities(t.recorded), q, w.kernel[q]);
        }
      }
    }
  }

  /** What may happen to a host, in any order. */
  datatype Call =
    | Reconciling(published: seq<Peer>, guard: Guard)
    | Withdrawing(root: Key, current: seq<Peer>, guard: Guard)
    | Reserving(peer: Peer)

  /** No publication among the calls spells a prefix twice. */
  ghost predicate AllListOnce(s: Setting, calls: seq<Call>) {
    forall k | 0 <= k < |calls| && calls[k].Reconciling? :: ListsOnce(s, calls[k].published)
  }

  lemma {:induction false} OrdinaryRepeats(s: Setting, published: seq<Peer>, reserved: set<Key>)
    requires ListsOnce(s, published)
    ensures ListsOnce(s, Ordinary(published, reserved)) && Repeating(s, Ordinary(published, reserved)) == {}
  {
    if published != [] {
      var front := published[..|published| - 1];
      assert forall i | 0 <= i < |front| :: front[i] == published[i];
      OrdinaryRepeats(s, front, reserved);
    }
  }

  class Host {
    const setting: Setting
    var main: Option<seq<Peer>>
    var sidecar: Option<Sidecar>
    var legacy: seq<Peer>
    var reserved: set<Key>
    var recorded: seq<Peer>
    var kernel: Kernel
    /** Every state a crash could have exposed so far, the present one last. */
    ghost var trace: seq<World>
    /** How many writes, kernel calls, route passes or renewals of live authority have failed. */
    ghost var faults: nat
    /** The keys whose peer some exposed state does not recognise. */
    ghost var lost: set<Key>

    ghost function Now(): World
      reads this
    {
      World(main, sidecar, legacy, reserved, recorded, kernel)
    }

    ghost predicate Valid()
      reads this
    {
      trace != [] && trace[|trace| - 1] == Now() && AllGood(setting, trace, lost)
    }

    constructor (setting: Setting, w: World)
      requires Good(setting, w, {})
      ensures this.setting == setting && Now() == w && Valid() && trace == [w] && lost == {}
    {
      this.setting := setting;
      main, sidecar, legacy, reserved, recorded, kernel :=
        w.main, w.sidecar, w.legacy, w.reserved, w.recorded, w.kernel;
      faults, lost := 0, {};
      trace := [w];
    }

    // ----- Single steps -----

    /** Makes a good world the present one. */
    ghost method Note(next: World)
      requires AllGood(setting, trace, lost) && Good(setting, next, lost) && next == Now()
      modifies this`trace
      ensures Valid() && trace == old(trace) + [next]
    {
      trace := trace + [next];
    }

    /** Gives up on some keys. */
    ghost method Lose(keys: set<Key>)
      requires Valid()
      modifies this`lost
      ensures Valid() && lost == old(lost) + keys
    {
      MoreLost(setting, trace, lost, lost + keys);
      lost := lost + keys;
    }

    method WriteMain(peers: seq<Peer>) returns (ok: bool)
      requires Valid() && Good(setting, Now().(main := Some(peers)), lost)
      modifies this`main, this`trace, this`faults
      ensures Valid() && trace == if ok then old(trace) + [Now()] else old(trace)
      ensures main == if ok then Some(peers) else old(main)
      ensures if ok then faults == old(faults) else faults > old(faults)
    {
      ghost var w := Now().(main := Some(peers));
      ok := *;
      if ok {
        main := Some(peers);
        Note(w);
      } else {
        faults := faults + 1;
      }
    }

    method WriteSidecar(next: Sidecar) returns (ok: bool)
      requires Valid() && Good(setting, Now().(sidecar := Some(next)), lost)
      modifies this`sidecar, this`trace, this`faults
      ensures Valid() && trace == if ok then old(trace) + [Now()] else old(trace)
      ensures sidecar == if ok then Some(next) else old(sidecar)
      ensures if ok then faults == old(faults) else faults > old(faults)
    {
      ghost var w := Now().(sidecar := Some(next));
      ok := *;
      if ok {
        sidecar := Some(next);
        Note(w);
      } else {
        faults := faults + 1;
      }
    }

    method RemovePeer(key: Key) returns (ok: bool)
      requires Valid()
      modifies this`kernel, this`trace, this`faults
      ensures Valid() && trace == if ok then old(trace) + [Now()] else old(trace)
      ensures kernel == if ok then old(kernel) - {key} else old(kernel)
      ensures if ok then faults == old(faults) else faults > old(faults)
    {
      ghost var w := Now().(kernel := kernel - {key});
      assert Good(setting, Now(), lost);
      RemovalGood(setting, Now(), key, lost);
      ok := *;
      if ok {
        kernel := kernel - {key};
        Note(w);
      } else {
        faults := faults + 1;
      }
    }

    /** Gives an entry its prefixes, whoever had them. */
    method InstallPeer(p: Peer) returns (ok: bool)
      requires Valid() && Good(setting, Now().(kernel := Assigned(kernel, p.key, PrefixesOf(setting, p))), lost)
      modifies this`kernel, this`trace, this`faults
      ensures Valid() && trace == if ok then old(trace) + [Now()] else old(trace)
      ensures kernel == if ok then Assigned(old(kernel), p.key, PrefixesOf(setting, p)) else old(kernel)
      ensures if ok then faults == old(faults) else faults > old(faults)
    {
      ghost var w := Now().(kernel := Assigned(kernel, p.key, PrefixesOf(setting, p)));
      ok := *;
      if ok {
        kernel := Assigned(kernel, p.key, PrefixesOf(setting, p));
        Note(w);
      } else {
        faults := faults + 1;
      }
    }

    /** Live authority may be refused, and a pass over routes may fail, at any time. */
    method Foreign() returns (ok: bool)
      modifies this`faults
      ensures if ok then faults == old(faults) else faults > old(faults)
    {
      ok := *;
      if !ok {
        faults := faults + 1;
      }
    }

    /** A journal takes over a key, recording the permission its peer has now. */
    method Reserve(p: Peer)
      requires Valid()
      requires p.key in kernel ==> Denotes(setting, multiset(p.sources), kernel[p.key])
      modifies this`reserved, this`recorded, this`trace
      ensures Valid() && trace == old(trace) + [Now()]
      ensures reserved == old(reserved) + {p.key} && recorded == old(recorded) + [p]
    {
      ghost var before := Now();
      assert Good(setting, before, lost);
      reserved, recorded := reserved + {p.key}, recorded + [p];
      ReservedIsGood(setting, before, p, lost);
      Note(before.(reserved := reserved, recorded := recorded));
    }

    // ----- Native retirement -----

    /** Whether one recorded variant of the key is exactly what the device has. */
    method FindVariant(retiring: seq<Peer>, key: Key) returns (found: bool)
      requires key in kernel
      ensures found <==> Named(setting, Identities(retiring), key, kernel[key])
    {
      for i := 0 to |retiring|
        invariant !Named(setting, Identities(retiring[..i]), key, kernel[key])
      {
        assert retiring[..i + 1][..i] == retiring[..i];
        if retiring[i].key == key {
          found := SourcesMatch(setting, retiring[i].sources, kernel[key]);
          if found {
            IdentityHit(retiring, i);
            return;
          }
        }
      }
      assert retiring[..|retiring|] == retiring;
      found := false;
    }

    method AllFound(retiring: seq<Peer>) returns (ok: bool)
      ensures ok <==> AllRecorded(setting, kernel, Identities(retiring))
    {
      KeysAreKeysOf(retiring);
      var todo := Keys(retiring);
      while todo != {}
        invariant forall key | key in Keys(retiring) && key in kernel && key !in todo ::
                    Named(setting, Identities(retiring), key, kernel[key])
        invariant todo <= Keys(retiring)
        decreases |todo|
      {
        var key :| key in todo;
        if key in kernel {
          ok := FindVariant(retiring, key);
          if !ok {
            return;
          }
        }
        todo := todo - {key};
      }
      ok := true;
    }

    method AllReadable(retiring: seq<Peer>) returns (ok: bool)
      ensures ok <==> forall id | id in Identities(retiring) :: id.key != setting.own && WellFormed(setting, id.sources)
    {
      for i := 0 to |retiring|
        invariant forall id | id in Identities(retiring[..i]) ::
                    id.key != setting.own && WellFormed(setting, id.sources)
      {
        assert retiring[..i + 1][..i] == retiring[..i];
        WellFormedIff(setting, retiring[i]);
        if retiring[i].key == setting.own || !Parsable(setting, retiring[i]) || !Once(setting, retiring[i]) {
          IdentityHit(retiring, i);
          return false;
        }
      }
      assert retiring[..|retiring|] == retiring;
      ok := true;
    }

    /** Whether the device and the recorded intent allow the retirement. */
    method AdmitRetirement(retiring: seq<Peer>) returns (ok: bool)
      ensures ok <==> Retirable(setting, kernel, Identities(retiring))
    {
      ok := AllReadable(retiring);
      if ok {
        ok := AllFound(retiring);
      }
      if ok {
        ok := Separate(setting, kernel, Identities(retiring));
      }
    }

    /** Removes the peers of `retiring`, each only if it still has a recorded set of sources. */
    method Retire(retiring: seq<Peer>) returns (ok: bool)
      requires Valid()
      modifies this`kernel, this`trace, this`faults
      ensures Valid() && old(trace) <= trace
      ensures OnlyRemoves(kernel, old(kernel), Keys(retiring))
      ensures ok ==> kernel == old(kernel) - Keys(retiring) && faults == old(faults)
      ensures SidecarStays(trace, |old(trace)|, |trace|, sidecar)
      ensures ok ==> Retirable(setting, old(kernel), Identities(retiring))
      ensures !Retirable(setting, old(kernel), Identities(retiring)) ==> trace == old(trace) && kernel == old(kernel)
      ensures !ok && Retirable(setting, old(kernel), Identities(retiring)) ==> faults > old(faults)
    {
      ok := AdmitRetirement(retiring);
      if ok && retiring != [] {
        ok := Foreign();
        if ok {
          ok := RemovePeers(Keys(retiring));
        }
      }
    }

    method RemovePeers(keys: set<Key>) returns (ok: bool)
      requires Valid()
      modifies this`kernel, this`trace, this`faults
      ensures Valid() && old(trace) <= trace
      ensures if ok then faults == old(faults) else faults > old(faults)
      ensures OnlyRemoves(kernel, old(kernel), keys)
      ensures ok ==> kernel == old(kernel) - keys
      ensures SidecarStays(trace, |old(trace)|, |trace|, sidecar)
    {
      var todo := keys;
      while todo != {}
        invariant Valid() && old(trace) <= trace && faults == old(faults)
        invariant forall q | q in todo :: q in keys
        invariant OnlyRemoves(kernel, old(kernel), keys) && SidecarStays(trace, |old(trace)|, |trace|, sidecar)
        invariant forall q | q in keys && q !in todo :: q !in kernel
        decreases |todo|
      {
        var key :| key in todo;
        if key in kernel {
          ok := RemovePeer(key);
          if !ok {
            return;
          }
        }
        todo := todo - {key};
      }
      AllRemoved(kernel, old(kernel), keys);
      ok := true;
    }

    // ----- One ordinary pass -----

    /** The permissions every pass starts from, each once; refused when a retained peer would shrink. */
    method Gather(desired: seq<Peer>) returns (ok: bool, previous: seq<Peer>)
      requires DistinctKeys(desired)
      ensures ok <==> Grows(MainPeers(Now()), desired) && Grows(SecondSource(Now()), desired)
      ensures ok ==> previous == Previous(Now()) && Identities(previous) == Known(Now()) && Distinct(previous)
    {
      var first := if main.Some? then main.value else [];
      var second := if sidecar.Some? then sidecar.value.retiring + sidecar.value.candidates else legacy;
      previous := [];
      ok := ValidateGrowth(first, desired);
      if !ok {
        return;
      }
      previous := Accumulate([], first);
      ok := ValidateGrowth(second, desired);
      if !ok {
        return;
      }
      previous := Accumulate(previous, second);
      if sidecar.Some? {
        IdentitiesAppend(sidecar.value.retiring, sidecar.value.candidates);
      }
    }

    /** Writes both files, sidecar first, so that every possible peer stays named. */
    method Checkpoint(previous: seq<Peer>, desired: seq<Peer>, retiring: seq<Peer>) returns (ok: bool)
      requires Valid() && Identities(previous) == Known(Now()) && Distinct(previous)
      requires Identities(retiring) == Unwanted(Now(), Keys(desired))
      modifies this`main, this`sidecar, this`trace, this`faults
      ensures Valid() && old(trace) <= trace
      ensures if ok then faults == old(faults) else faults > old(faults)
      ensures ok ==> Checkpointed(Now(), desired) && sidecar.value.retiring == retiring
      ensures old(sidecar).Some? ==> sidecar.Some?
      ensures main != old(main) ==> sidecar.Some? && sidecar.value.peers == desired && main == Some(desired)
    {
      var candidates := SelectCandidates(previous + desired, Keys(desired));
      IdentitiesAppend(previous, desired);
      ok := Foreign();
      if ok {
        ok := WriteBoth(desired, retiring, candidates);
      }
    }

    method WriteBoth(desired: seq<Peer>, retiring: seq<Peer>, candidates: seq<Peer>) returns (ok: bool)
      requires Valid() && Identities(retiring) == Unwanted(Now(), Keys(desired))
      requires Identities(candidates) == OfKeys(Known(Now()) + Identities(desired), Keys(desired))
      modifies this`main, this`sidecar, this`trace, this`faults
      ensures Valid() && old(trace) <= trace
      ensures if ok then faults == old(faults) else faults > old(faults)
      ensures ok ==> main == Some(desired) && sidecar == Some(Sidecar(desired, retiring, candidates))
      ensures old(sidecar).Some? ==> sidecar.Some?
      ensures main != old(main) ==> sidecar.Some? && sidecar.value.peers == desired && main == Some(desired)
    {
      assert Good(setting, Now(), lost);
      BothWritesAreGood(setting, Now(), lost, desired, retiring, candidates);
      ok := WriteSidecar(Sidecar(desired, retiring, candidates));
      if ok {
        ok := WriteMain(desired);
      }
    }

    /**
     One reconcile pass; it may stop after any step. No peer is lost but those whose entry spells
     a prefix twice; readback then refuses the pass. Only unwanted peers go, and nobody else loses
     a source.
     */
    method Reconcile(published: seq<Peer>, g: Guard) returns (ok: bool)
      requires Valid()
      modifies this`main, this`sidecar, this`kernel, this`trace, this`faults, this`lost
      ensures Valid() && old(trace) <= trace && (old(sidecar).Some? ==> sidecar.Some?)
      ensures old(lost) <= lost <= old(lost) + Repeating(setting, Ordinary(published, reserved))
      ensures !Reconcilable(setting, g, old(Now()), published) ==> !ok && Now() == old(Now()) && trace == old(trace)
      ensures NoneLoses(kernel, old(kernel) - KeysOf(Unwanted(old(Now()), Keys(Ordinary(published, reserved)))))
      ensures forall q | q in old(kernel) && q in reserved :: q in kernel && kernel[q] == old(kernel)[q]
      ensures ok ==> PassDone(Now(), old(Now()), Ordinary(published, reserved))
      ensures ok ==> faults == old(faults) && kernel.Keys <= Keys(Ordinary(published, reserved)) + reserved + lost
      ensures ok ==> PassAllowed(old(Now()), published, g)
      ensures faults == old(faults) && PassAllowed(old(Now()), published, g) ==> ok
    {
      var plan := PlanPeers(setting, g, reserved, published);
      if plan.None? || !(Keys(plan.value) !! g.withdrawn) {
        return false;
      }
      OrdinaryIsPlain(setting, g, reserved, published);
      ok := ReconcilePlanned(plan.value, g);
    }

    /** What the files, the device and the publication must say for a pass to succeed. */
    ghost predicate PassAllowed(w: World, published: seq<Peer>, g: Guard) {
      var desired := Ordinary(published, w.reserved);
      && Reconcilable(setting, g, w, published)
      && NativelyAllowed(setting, w.kernel, Unwanted(w, Keys(desired)), desired)
    }

    /** A completed pass: both files say so, and the device has exactly the entries added to what was kept. */
    ghost predicate PassDone(now: World, before: World, desired: seq<Peer>) {
      && now.main == Some(desired) && now.sidecar == Some(Sidecar(desired, [], []))
      && AllReadBack(setting, now.kernel, desired)
      && now.kernel == Installed(setting, before.kernel - KeysOf(Unwanted(before, Keys(desired))), desired)
    }

    /** The files and the retirement plan allow the pass. */
    ghost predicate PlannedAllowed(w: World, desired: seq<Peer>, g: Guard) {
      && Grows(MainPeers(w), desired) && Grows(SecondSource(w), desired)
      && RetirementsAllowed(setting, g, w.reserved, Previous(w), Keys(desired))
    }

    method ReconcilePlanned(desired: seq<Peer>, g: Guard) returns (ok: bool)
      requires Valid() && Plain(setting, reserved, desired)
      modifies this`main, this`sidecar, this`kernel, this`trace, this`faults, this`lost
      ensures Valid() && old(trace) <= trace && (old(sidecar).Some? ==> sidecar.Some?)
      ensures old(lost) <= lost <= old(lost) + Repeating(setting, desired)
      ensures !PlannedAllowed(old(Now()), desired, g) ==> !ok && Now() == old(Now()) && trace == old(trace)
      ensures NoneLoses(kernel, old(kernel) - KeysOf(Unwanted(old(Now()), Keys(desired))))
      ensures forall q | q in old(kernel) && q in reserved :: q in kernel && kernel[q] == old(kernel)[q]
      ensures ok ==> PassDone(Now(), old(Now()), desired)
      ensures ok ==> faults == old(faults) && kernel.Keys <= Keys(desired) + reserved + lost
      ensures ok ==> PlannedAllowed(old(Now()), desired, g)
      ensures ok ==> NativelyAllowed(setting, old(kernel), Unwanted(old(Now()), Keys(desired)), desired)
      ensures !ok && faults == old(faults) && PlannedAllowed(old(Now()), desired, g) ==>
                !NativelyAllowed(setting, old(kernel), Unwanted(old(Now()), Keys(desired)), desired)
    {
      PlainIsDistinct(setting, reserved, desired);
      var plan := PlanPass(desired, g);
      if plan.None? {
        return false;
      }
      ok := CommitPass(plan.value.0, desired, plan.value.1);
    }

    /** The recorded permissions and those among them to retire, or None when the files refuse the pass. */
    method PlanPass(desired: seq<Peer>, g: Guard) returns (plan: Option<(seq<Peer>, seq<Peer>)>)
      requires DistinctKeys(desired)
      ensures plan.Some? <==> PlannedAllowed(Now(), desired, g)
      ensures plan.Some? ==> Identities(plan.value.0) == Known(Now()) && Distinct(plan.value.0)
      ensures plan.Some? ==> Identities(plan.value.1) == Unwanted(Now(), Keys(desired))
    {
      var ok, previous := Gather(desired);
      if !ok {
        return None;
      }
      var retiring := PlanRetirements(setting, g, reserved, previous, Keys(desired));
      if retiring.None? {
        return None;
      }
      plan := Some((previous, retiring.value));
    }

    method CommitPass(previous: seq<Peer>, desired: seq<Peer>, retiring: seq<Peer>) returns (ok: bool)
      requires Valid() && Plain(setting, reserved, desired)
      requires Identities(previous) == Known(Now()) && Distinct(previous)
      requires Identities(retiring) == Unwanted(Now(), Keys(desired))
      modifies this`main, this`sidecar, this`kernel, this`trace, this`faults, this`lost
      ensures Valid() && old(trace) <= trace && (old(sidecar).Some? ==> sidecar.Some?)
      ensures old(lost) <= lost <= old(lost) + Repeating(setting, desired)
      ensures NoneLoses(kernel, old(kernel) - KeysOf(Identities(retiring)))
      ensures forall q | q in old(kernel) && q in reserved :: q in kernel && kernel[q] == old(kernel)[q]
      ensures ok ==> PassDone(Now(), old(Now()), desired)
      ensures ok ==> faults == old(faults) && kernel.Keys <= Keys(desired) + reserved + lost
      ensures ok ==> NativelyAllowed(setting, old(kernel), Identities(retiring), desired)
      ensures !ok && faults == old(faults) ==> !NativelyAllowed(setting, old(kernel), Identities(retiring), desired)
    {
      ok := Checkpoint(previous, desired, retiring);
      if ok {
        ok := RunPass(desired);
      }
    }

    /** What follows once both files are written. */
    method RunPass(desired: seq<Peer>) returns (ok: bool)
      requires Valid() && Checkpointed(Now(), desired) && Plain(setting, reserved, desired)
      modifies this`sidecar, this`kernel, this`trace, this`faults, this`lost
      ensures Valid() && old(trace) <= trace && sidecar.Some?
      ensures old(lost) <= lost <= old(lost) + Repeating(setting, desired)
      ensures NoneLoses(kernel, old(kernel) - KeysOf(Identities(old(sidecar).value.retiring)))
      ensures forall q | q in old(kernel) && q in reserved :: q in kernel && kernel[q] == old(kernel)[q]
      ensures ok ==> sidecar == Some(Sidecar(desired, [], [])) && AllReadBack(setting, kernel, desired)
      ensures ok ==>
                kernel == Installed(setting, old(kernel) - KeysOf(Identities(old(sidecar).value.retiring)), desired)
      ensures ok ==> faults == old(faults) && kernel.Keys <= Keys(desired) + reserved + lost
      ensures ok ==> NativelyAllowed(setting, old(kernel), Identities(old(sidecar).value.retiring), desired)
      ensures !ok && faults == old(faults) ==>
                !NativelyAllowed(setting, old(kernel), Identities(old(sidecar).value.retiring), desired)
    {
      ok := Foreign();
      if !ok {
        return;
      }
      ok := Native(desired);
      if !ok {
        return;
      }
      ok := Foreign();
      if ok {
        ok := Clear(desired);
      }
    }

    /** Drops the intent once the device has been read back. */
    method Clear(desired: seq<Peer>) returns (ok: bool)
      requires Valid() && Checkpointed(Now(), desired) && sidecar.value.retiring == []
      requires AllReadBack(setting, kernel, desired)
      modifies this`sidecar, this`trace, this`faults
      ensures Valid() && old(trace) <= trace
      ensures if ok then faults == old(faults) && sidecar == Some(Sidecar(desired, [], [])) else faults > old(faults)
      ensures kernel.Keys <= Keys(desired) + reserved + lost && sidecar.Some?
    {
      assert Good(setting, Now(), lost);
      ClearedIsGood(setting, Now(), lost, desired);
      ok := WriteSidecar(Sidecar(desired, [], []));
    }

    /** Retire, commit the retirement, admit, install, route, read back. */
    method Native(desired: seq<Peer>) returns (ok: bool)
      requires Valid() && Checkpointed(Now(), desired) && Plain(setting, reserved, desired)
      modifies this`sidecar, this`kernel, this`trace, this`faults, this`lost
      ensures Valid() && old(trace) <= trace && sidecar.Some?
      ensures old(lost) <= lost <= old(lost) + Repeating(setting, desired)
      ensures NoneLoses(kernel, old(kernel) - KeysOf(Identities(old(sidecar).value.retiring)))
      ensures forall q | q in old(kernel) && q in reserved :: q in kernel && kernel[q] == old(kernel)[q]
      ensures ok ==> Checkpointed(Now(), desired) && sidecar.value.retiring == []
      ensures ok ==> AllReadBack(setting, kernel, desired) && faults == old(faults)
      ensures ok ==>
                kernel == Installed(setting, old(kernel) - KeysOf(Identities(old(sidecar).value.retiring)), desired)
      ensures ok ==> NativelyAllowed(setting, old(kernel), Identities(old(sidecar).value.retiring), desired)
      ensures !ok && faults == old(faults) ==>
                !NativelyAllowed(setting, old(kernel), Identities(old(sidecar).value.retiring), desired)
    {
      PlainIsDistinct(setting, reserved, desired);
      NoReservedRetiring(Now(), desired);
      KeysAreKeysOf(sidecar.value.retiring);
      ok := RetireListed(desired);
      if ok {
        ok := InstallPartition(desired);
      }
    }

    /** Retires what the sidecar lists and commits that it is gone. */
    method RetireListed(desired: seq<Peer>) returns (ok: bool)
      requires Valid() && Checkpointed(Now(), desired)
      modifies this`sidecar, this`kernel, this`trace, this`faults
      ensures Valid() && old(trace) <= trace && sidecar.Some?
      ensures OnlyRemoves(kernel, old(kernel), Keys(old(sidecar).value.retiring))
      ensures ok ==> Checkpointed(Now(), desired) && sidecar.value.retiring == [] && faults == old(faults)
      ensures ok ==> kernel == old(kernel) - Keys(old(sidecar).value.retiring)
      ensures ok ==> Retirable(setting, old(kernel), Identities(old(sidecar).value.retiring))
      ensures !ok && faults == old(faults) ==> !Retirable(setting, old(kernel), Identities(old(sidecar).value.retiring))
    {
      ok := Retire(sidecar.value.retiring);
      if !ok {
        return;
      }
      ok := Foreign();
      if !ok {
        return;
      }
      ghost var before := Now();
      assert Good(setting, before, lost);
      var next := sidecar.value.(retiring := []);
      RetirementKeepsPeers(setting, before, before.(sidecar := Some(next)), lost);
      FilesGood(setting, before, before.(sidecar := Some(next)), lost);
      ok := WriteSidecar(next);
    }

    /** The native preflight of one partition, and what follows it. */
    method InstallPartition(desired: seq<Peer>) returns (ok: bool)
      requires Valid() && Checkpointed(Now(), desired) && Plain(setting, reserved, desired)
      modifies this`kernel, this`trace, this`faults, this`lost
      ensures Valid() && old(trace) <= trace
      ensures old(lost) <= lost <= old(lost) + Repeating(setting, desired)
      ensures NoneLoses(kernel, old(kernel))
      ensures SameOutside(kernel, old(kernel), Keys(desired))
      ensures ok ==> kernel == Installed(setting, old(kernel), desired) && AllReadBack(setting, kernel, desired)
      ensures ok ==> faults == old(faults) && Partitionable(setting, old(kernel), desired)
      ensures ok ==> WellSpelled(setting, desired) && ListsOnce(setting, desired)
      ensures !ok && faults == old(faults) && Partitionable(setting, old(kernel), desired) ==>
                !(WellSpelled(setting, desired) && ListsOnce(setting, desired))
    {
      if !Partitionable(setting, kernel, desired) {
        return false;
      }
      PlainIsDistinct(setting, reserved, desired);
      ok := InstallAdmitted(desired);
    }

    method InstallAdmitted(desired: seq<Peer>) returns (ok: bool)
      requires Valid() && Checkpointed(Now(), desired) && Keys(desired) !! reserved
      requires Partitionable(setting, kernel, desired)
      modifies this`kernel, this`trace, this`faults, this`lost
      ensures Valid() && old(trace) <= trace
      ensures lost == old(lost) + Repeating(setting, desired)
      ensures NoneLoses(kernel, old(kernel))
      ensures SameOutside(kernel, old(kernel), Keys(desired))
      ensures ok ==> kernel == Installed(setting, old(kernel), desired) && AllReadBack(setting, kernel, desired)
      ensures ok ==> faults == old(faults) && WellSpelled(setting, desired) && ListsOnce(setting, desired)
      ensures !ok && faults == old(faults) ==> !(WellSpelled(setting, desired) && ListsOnce(setting, desired))
    {
      AdmittedReadsBackIff(setting, kernel, desired);
      ghost var target := Installed(setting, kernel, desired);
      ok := Install(desired);
      if ok {
        assert kernel == target;
        ok := Confirm(desired);
      }
    }

    /** Routes, then readback. */
    method Confirm(desired: seq<Peer>) returns (ok: bool)
      modifies this`faults
      ensures ok ==> faults == old(faults) && WellSpelled(setting, desired) && AllReadBack(setting, kernel, desired)
      ensures !ok && faults == old(faults) ==> !(WellSpelled(setting, desired) && AllReadBack(setting, kernel, desired))
    {
      ok := InstallRoutes(desired);
      if ok {
        ok := ReadBack(desired);
      }
    }

    /** The routes are scoped by spelling; otherwise their installation may fail for its own reasons. */
    method InstallRoutes(desired: seq<Peer>) returns (ok: bool)
      modifies this`faults
      ensures ok ==> faults == old(faults) && WellSpelled(setting, desired)
      ensures !ok && WellSpelled(setting, desired) ==> faults > old(faults)
    {
      if !WellSpelled(setting, desired) {
        return false;
      }
      ok := Foreign();
    }

    method ReadBack(desired: seq<Peer>) returns (ok: bool)
      ensures ok <==> AllReadBack(setting, kernel, desired)
    {
      for i := 0 to |desired|
        invariant forall j | 0 <= j < i :: ReadsBack(setting, kernel, desired[j])
      {
        ok := desired[i].key in kernel;
        if ok {
          ok := SourcesMatch(setting, desired[i].sources, kernel[desired[i].key]);
        }
        if !ok {
          return;
        }
      }
      ok := true;
    }

    /** Installs an admitted partition entry by entry; no state takes a source from anyone. */
    method Install(desired: seq<Peer>) returns (ok: bool)
      requires Valid() && Checkpointed(Now(), desired) && Keys(desired) !! reserved
      requires Partitionable(setting, kernel, desired)
      modifies this`kernel, this`trace, this`faults, this`lost
      ensures Valid() && old(trace) <= trace
      ensures if ok then faults == old(faults) else faults > old(faults)
      ensures lost == old(lost) + Repeating(setting, desired)
      ensures NoneLoses(kernel, old(kernel))
      ensures SameOutside(kernel, old(kernel), Keys(desired))
      ensures ok ==> kernel == Installed(setting, old(kernel), desired)
    {
      Lose(Repeating(setting, desired));
      for k := 0 to |desired|
        invariant Valid() && old(trace) <= trace && faults == old(faults)
        invariant lost == old(lost) + Repeating(setting, desired)
        invariant kernel == Installed(setting, old(kernel), desired[..k])
      {
        InstallStep(setting, old(kernel), desired, k);
        ok := InstallOne(desired, k);
        if !ok {
          InstalledKeeps(setting, old(kernel), desired, k);
          return;
        }
      }
      assert desired[..|desired|] == desired;
      InstalledKeeps(setting, old(kernel), desired, |desired|);
      ok := true;
    }

    method InstallOne(desired: seq<Peer>, k: nat) returns (ok: bool)
      requires Valid() && Checkpointed(Now(), desired) && Keys(desired) !! reserved && k < |desired|
      requires Repeating(setting, desired) <= lost && Parsable(setting, desired[k])
      requires forall q | q in kernel && q != desired[k].key :: kernel[q] !! PrefixesOf(setting, desired[k])
      modifies this`kernel, this`trace, this`faults
      ensures Valid() && trace == if ok then old(trace) + [Now()] else old(trace)
      ensures kernel ==
              if ok then Assigned(old(kernel), desired[k].key, PrefixesOf(setting, desired[k])) else old(kernel)
      ensures if ok then faults == old(faults) else faults > old(faults)
    {
      var p := desired[k];
      IdentityHit(desired, k);
      ParsableHasPrefix(setting, p);
      WellFormedIff(setting, p);
      assert Good(setting, Now(), lost);
      assert p.key in lost || Named(setting, Known(Now()), p.key, PrefixesOf(setting, p)) by {
        if Once(setting, p) {
          assert Identity(p) in Known(Now()) && Denotes(setting, Identity(p).sources, PrefixesOf(setting, p));
        } else {
          assert p.key in Repeating(setting, desired);
        }
      }
      InstallGood(setting, Now(), p.key, PrefixesOf(setting, p), lost);
      ok := InstallPeer(p);
    }

    // ----- Withdrawing one reserved root -----

    /**
     Retires every recorded variant of `root`, then removes it from the checkpoint and last from
     the sidecar. It may stop after any step; until it succeeds every state it exposes has all those
     variants in the intent on disk. No peer is lost but those only the older cache names.
     */
    method Withdraw(root: Key, current: seq<Peer>, g: Guard) returns (ok: bool)
      requires Valid()
      modifies this`main, this`sidecar, this`kernel, this`trace, this`faults, this`lost
      ensures Valid() && old(trace) <= trace && (old(sidecar).Some? ==> sidecar.Some?)
      ensures old(lost) <= lost <= old(lost) + CacheOnly(setting, old(Now()))
      ensures !Withdrawable(setting, g, old(Now()), root, current) ==> !ok && Now() == old(Now()) && trace == old(trace)
      ensures OnlyRemoves(kernel, old(kernel), {root})
      ensures IntendedFrom(trace, |old(trace)|, Before(trace, ok), RootVariants(old(Now()), root))
      ensures ok ==> Forgotten(Now(), root) && faults == old(faults)
      ensures ok && root !in old(lost) ==> root !in kernel
      ensures ok ==> forall id | id in old(Known(Now())) && id.key != root && old(sidecar).Some? :: id in Known(Now())
      ensures ok ==> Withdrawable(setting, g, old(Now()), root, current)
      ensures ok ==> Retirable(setting, old(kernel), RootVariants(old(Now()), root))
      ensures Withdrawable(setting, g, old(Now()), root, current) && faults == old(faults) && !ok ==>
                !Retirable(setting, old(kernel), RootVariants(old(Now()), root))
    {
      var selected := PlanWithdrawal(root, current, g);
      if selected.None? {
        return false;
      }
      assert Good(setting, Now(), lost);
      RootIsSelected(setting, Now(), root, selected.value);
      ok := WithdrawSelected(root, current, selected.value);
    }

    /** The recorded variants of `root`; refused when the publication or a journal meets one. */
    method PlanWithdrawal(root: Key, current: seq<Peer>, g: Guard) returns (selected: Option<seq<Peer>>)
      ensures selected.Some? <==> Withdrawable(setting, g, Now(), root, current)
      ensures selected.Some? ==> Identities(selected.value) == RootVariants(Now(), root)
      ensures selected.Some? ==> Keys(selected.value) <= {root}
    {
      if !setting.valid(root) {
        return None;
      }
      var plan := PlanPeers(setting, g, reserved, current);
      if plan.None? || root !in reserved || root in Keys(current) {
        return None;
      }
      var list := recorded + (if main.Some? then main.value else []) +
        (if sidecar.Some? then sidecar.value.peers + sidecar.value.retiring + sidecar.value.candidates else []);
      assert list == OnRecord(Now());
      selected := SelectVariants(setting, g, reserved, current, root, list);
    }

    method WithdrawSelected(root: Key, current: seq<Peer>, selected: seq<Peer>) returns (ok: bool)
      requires Valid() && root in reserved && Keys(selected) <= {root}
      modifies this`main, this`sidecar, this`kernel, this`trace, this`faults, this`lost
      ensures Valid() && old(trace) <= trace && (old(sidecar).Some? ==> sidecar.Some?)
      ensures lost == old(lost) + CacheOnly(setting, old(Now()))
      ensures IntendedFrom(trace, |old(trace)|, Before(trace, ok), Identities(selected))
      ensures OnlyRemoves(kernel, old(kernel), {root})
      ensures ok ==> Forgotten(Now(), root) && faults == old(faults) && kernel.Keys !! Keys(selected)
      ensures ok ==> forall id | id in old(Known(Now())) && id.key != root && old(sidecar).Some? :: id in Known(Now())
      ensures ok ==> Retirable(setting, old(kernel), Identities(selected))
      ensures faults == old(faults) && !ok ==> !Retirable(setting, old(kernel), Identities(selected))
    {
      var intent := if sidecar.Some? then sidecar.value else Sidecar(current, [], []);
      var retiring := AddMissing(intent.retiring, selected);
      intent := intent.(retiring := retiring);
      ghost var before := Now();
      Lose(CacheOnly(setting, before));
      assert Good(setting, before, lost);
      IntentKeepsPeers(setting, before, intent, lost);
      ok := Foreign();
      if ok {
        ok := Intend(root, intent, selected);
      }
    }

    /** The intent first, with everything that may be retired. */
    method Intend(root: Key, intent: Sidecar, selected: seq<Peer>) returns (ok: bool)
      requires Valid() && Good(setting, Now().(sidecar := Some(intent)), lost)
      requires root in reserved && Keys(selected) <= {root} && Identities(selected) <= Identities(intent.retiring)
      modifies this`main, this`sidecar, this`kernel, this`trace, this`faults
      ensures Valid() && old(trace) <= trace && (old(sidecar).Some? ==> sidecar.Some?)
      ensures OnlyRemoves(kernel, old(kernel), {root})
      ensures IntendedFrom(trace, |old(trace)|, Before(trace, ok), Identities(selected))
      ensures ok ==> Forgotten(Now(), root) && faults == old(faults) && kernel.Keys !! Keys(selected)
      ensures ok ==> forall id | id in old(Known(Now().(sidecar := Some(intent)))) && id.key != root ::
                id in Known(Now())
      ensures ok ==> Retirable(setting, old(kernel), Identities(selected))
      ensures faults == old(faults) && !ok ==> !Retirable(setting, old(kernel), Identities(selected))
    {
      ok := WriteSidecar(intent);
      if ok {
        ok := RetireRoot(root, intent, selected);
        SinceWritten(trace, |old(trace)|, Before(trace, ok), intent, Identities(selected));
      }
    }

    /** What follows once the intent is on disk. */
    method RetireRoot(root: Key, intent: Sidecar, selected: seq<Peer>) returns (ok: bool)
      requires Valid() && sidecar == Some(intent) && root in reserved && Keys(selected) <= {root}
      modifies this`main, this`sidecar, this`kernel, this`trace, this`faults
      ensures Valid() && old(trace) <= trace && sidecar.Some?
      ensures SidecarStays(trace, |old(trace)|, Before(trace, ok), Some(intent))
      ensures OnlyRemoves(kernel, old(kernel), {root})
      ensures ok ==> Forgotten(Now(), root) && kernel.Keys !! Keys(selected) && faults == old(faults)
      ensures ok ==> forall id | id in old(Known(Now())) && id.key != root :: id in Known(Now())
      ensures ok ==> Retirable(setting, old(kernel), Identities(selected))
      ensures !ok && faults == old(faults) ==> !Retirable(setting, old(kernel), Identities(selected))
    {
      ok := Foreign();
      if !ok {
        return;
      }
      ok := Retire(selected);
      if !ok {
        return;
      }
      ok := Foreign();
      if ok {
        ok := Forget(root, intent);
      }
    }

    /** The executable checkpoint first; the sidecar until that has committed. */
    method Forget(root: Key, intent: Sidecar) returns (ok: bool)
      requires Valid() && sidecar == Some(intent) && root in reserved
      modifies this`main, this`sidecar, this`trace, this`faults
      ensures Valid() && old(trace) <= trace
      ensures if ok then faults == old(faults) else faults > old(faults)
      ensures sidecar.Some? && (ok ==> Forgotten(Now(), root))
      ensures SidecarStays(trace, |old(trace)|, Before(trace, ok), Some(intent))
      ensures ok ==> forall id | id in old(Known(Now())) && id.key != root :: id in Known(Now())
    {
      ok := ForgetMain(root);
      if !ok {
        return;
      }
      ghost var before := Now();
      assert Good(setting, before, lost);
      SidecarForgets(setting, before, lost, root);
      FilesGood(setting, before, before.(sidecar := Some(Forgetting(intent, root))), lost);
      ok := WriteSidecar(Forgetting(intent, root));
    }

    method ForgetMain(root: Key) returns (ok: bool)
      requires Valid() && root in reserved
      modifies this`main, this`trace, this`faults
      ensures Valid() && old(trace) <= trace
      ensures if ok then faults == old(faults) else faults > old(faults)
      ensures ok ==> root !in Keys(MainPeers(Now()))
      ensures SidecarStays(trace, |old(trace)|, |trace|, sidecar)
      ensures ok ==> forall id | id in old(Known(Now())) && id.key != root :: id in Known(Now())
    {
      if main.None? {
        return true;
      }
      ghost var before := Now();
      ghost var after := before.(main := Some(Without(main.value, root)));
      assert Good(setting, before, lost);
      WithoutIdentities(main.value, root);
      KeepingIdsReplaces(setting, before, lost, Known(after));
      FilesGood(setting, before, after, lost);
      ok := WriteMain(Without(main.value, root));
    }

    // ----- Any number of calls -----

    /**
     Once a sidecar exists, no sequence of passes, withdrawals and reservations loses a peer,
     wherever each of them stops, as long as no publication spells a prefix twice.
     */
    method Serve(calls: seq<Call>)
      requires Valid()
      modifies this
      ensures Valid() && old(trace) <= trace && old(lost) <= lost
      ensures AllListOnce(setting, calls) && old(sidecar).Some? ==> lost == old(lost)
      ensures AllListOnce(setting, calls) && old(sidecar).Some? && old(lost) == {} ==> AllGood(setting, trace, {})
    {
      for k := 0 to |calls|
        invariant Valid() && old(trace) <= trace && old(lost) <= lost
        invariant old(sidecar).Some? ==> sidecar.Some?
        invariant AllListOnce(setting, calls) && old(sidecar).Some? ==> lost == old(lost)
      {
        ServeOne(calls[k]);
      }
    }

    method ServeOne(call: Call)
      requires Valid()
      modifies this
      ensures Valid() && old(trace) <= trace && old(lost) <= lost && (old(sidecar).Some? ==> sidecar.Some?)
      ensures (call.Reconciling? ==> ListsOnce(setting, call.published)) && old(sidecar).Some? ==> lost == old(lost)
    {
      match call
      case Reconciling(published, guard) =>
        if ListsOnce(setting, published) {
          OrdinaryRepeats(setting, published, reserved);
        }
        var _ := Reconcile(published, guard);
      case Withdrawing(root, current, guard) =>
        assert sidecar.Some? ==> CacheOnly(setting, Now()) == {};
        var _ := Withdraw(root, current, guard);
      case Reserving(p) =>
        var fits := p.key !in kernel;
        if !fits {
          fits := SourcesMatch(setting, p.sources, kernel[p.key]);
        }
        if fits {
          Reserve(p);
        }
    }
  }
}
