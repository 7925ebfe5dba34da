/**
 Published and recorded neighbor sources: how they are spelled, what they mean, and which entries
 of a publication are ordinary.

 Records and publications hold sources as they are spelled, and are compared as spelled; a device
 holds prefixes. The results say exactly when a spelled list names a device state.
 */
module NeighborSources {
  import opened Options
  import opened Prefixes
  import opened Sequences

  type Key = string
  type Source = string
  /** The accept list of each installed peer. */
  type Kernel = map<Key, set<Prefix>>

  datatype Peer = Peer(key: Key, endpoint: string, hosts: seq<string>, sources: seq<Source>)

  /** Endpoints may roam; the exact key and spelled sources are the identity. */
  datatype Permission = Permission(key: Key, sources: multiset<Source>)

  /**
   What does not change while the host runs: its own key, which keys are keys, how sources,
   route hosts and endpoints are read, how the kernel spells a prefix, and which prefixes a node
   never accepts.
   */
  datatype Setting = Setting(own: Key, valid: Key -> bool, parse: Source -> Option<Prefix>, spell: Prefix -> Source,
                             address: string -> Option<Address>, resolves: string -> bool, refused: set<Prefix>)

  /**
   What the admitted journals protect: the keys and prefixes of site transports, the prefixes of
   each reserved root, and the keys whose withdrawal completed.
   */
  datatype Guard = Guard(transport: set<Key>, shielded: set<Prefix>, owned: map<Key, set<Prefix>>, withdrawn: set<Key>)

  function Identity(p: Peer): Permission {
    Permission(p.key, multiset(p.sources))
  }

  function Identities(peers: seq<Peer>): set<Permission> {
    if peers == [] then {} else Identities(peers[..|peers| - 1]) + {Identity(peers[|peers| - 1])}
  }

  function Keys(peers: seq<Peer>): set<Key> {
    if peers == [] then {} else Keys(peers[..|peers| - 1]) + {peers[|peers| - 1].key}
  }

  function SourceSet(p: Peer): set<Source> {
    set i | 0 <= i < |p.sources| :: p.sources[i]
  }

  // ----- What a spelled permission means -----

  /** The prefixes these sources spell. */
  function Parsed(s: Setting, sources: multiset<Source>): set<Prefix> {
    set raw | raw in sources && s.parse(raw).Some? :: s.parse(raw).value
  }

  /** At least one source, each a prefix, and no prefix twice, in one spelling or in two. */
  predicate WellFormed(s: Setting, sources: multiset<Source>) {
    && sources != multiset{}
    && (forall raw | raw in sources :: sources[raw] == 1 && s.parse(raw).Some?)
    && (forall a, b | a in sources && b in sources && a != b :: s.parse(a) != s.parse(b))
  }

  /** The accept list is exactly what these sources spell. */
  predicate Denotes(s: Setting, sources: multiset<Source>, prefixes: set<Prefix>) {
    WellFormed(s, sources) && Parsed(s, sources) == prefixes
  }

  function PrefixesOf(s: Setting, p: Peer): set<Prefix> {
    Parsed(s, multiset(p.sources))
  }

  /** Some permission in `ids` is what the device has for `key`. */
  predicate Named(s: Setting, ids: set<Permission>, key: Key, prefixes: set<Prefix>) {
    exists id :: id in ids && id.key == key && Denotes(s, id.sources, prefixes)
  }

  predicate Parsable(s: Setting, p: Peer) {
    p.sources != [] && forall i | 0 <= i < |p.sources| :: s.parse(p.sources[i]).Some?
  }

  /** No prefix is spelled twice. */
  predicate Once(s: Setting, p: Peer) {
    forall i, j | 0 <= i < j < |p.sources| && s.parse(p.sources[i]).Some? ::
      s.parse(p.sources[i]) != s.parse(p.sources[j])
  }

  lemma ParsedIffListed(s: Setting, p: Peer, prefix: Prefix)
    ensures prefix in PrefixesOf(s, p) <==> exists i :: 0 <= i < |p.sources| && s.parse(p.sources[i]) == Some(prefix)
  {
    if prefix in PrefixesOf(s, p) {
      var raw :| raw in multiset(p.sources) && s.parse(raw) == Some(prefix);
      assert raw in p.sources;
    }
    if i :| 0 <= i < |p.sources| && s.parse(p.sources[i]) == Some(prefix) {
      assert p.sources[i] in multiset(p.sources);
    }
  }

  lemma ReadableIsWellFormed(s: Setting, p: Peer)
    requires Parsable(s, p) && Once(s, p)
    ensures WellFormed(s, multiset(p.sources))
  {
    var m := multiset(p.sources);
    assert p.sources[0] in m;
    forall raw | raw in m
      ensures m[raw] == 1 && s.parse(raw).Some?
    {
      var k :| 0 <= k < |p.sources| && p.sources[k] == raw;
      SingleCounts(p.sources, k);
    }
    forall a, b | a in m && b in m && a != b
      ensures s.parse(a) != s.parse(b)
    {
      var i :| 0 <= i < |p.sources| && p.sources[i] == a;
      var j :| 0 <= j < |p.sources| && p.sources[j] == b;
      assert i < j || j < i;
    }
  }

  lemma WellFormedIsReadable(s: Setting, p: Peer)
    requires WellFormed(s, multiset(p.sources))
    ensures Parsable(s, p) && Once(s, p)
  {
    var m := multiset(p.sources);
    assert p.sources != [];
    forall i | 0 <= i < |p.sources|
      ensures s.parse(p.sources[i]).Some?
    {
      assert p.sources[i] in m;
    }
    forall i, j | 0 <= i < j < |p.sources|
      ensures s.parse(p.sources[i]) != s.parse(p.sources[j])
    {
      assert p.sources[i] in m && p.sources[j] in m;
      if p.sources[i] == p.sources[j] {
        RepeatCounts(p.sources, i, j);
      }
    }
  }

  /** A published entry names a device state exactly when it can be read and repeats no prefix. */
  lemma WellFormedIff(s: Setting, p: Peer)
    ensures WellFormed(s, multiset(p.sources)) <==> Parsable(s, p) && Once(s, p)
  {
    if WellFormed(s, multiset(p.sources)) {
      WellFormedIsReadable(s, p);
    }
    if Parsable(s, p) && Once(s, p) {
      ReadableIsWellFormed(s, p);
    }
  }

  /** The first `n` sources are prefixes, all different, and `seen` holds exactly them. */
  ghost predicate ReadTo(s: Setting, expected: seq<Source>, n: nat, seen: set<Prefix>) {
    && n <= |expected|
    && (forall j | 0 <= j < n :: s.parse(expected[j]).Some? && s.parse(expected[j]).value in seen)
    && (forall q | q in seen :: exists j :: 0 <= j < n && s.parse(expected[j]) == Some(q))
    && (forall j, k | 0 <= j < k < n :: s.parse(expected[j]) != s.parse(expected[k]))
  }

  lemma ReadNext(s: Setting, expected: seq<Source>, n: nat, seen: set<Prefix>)
    requires ReadTo(s, expected, n, seen) && n < |expected|
    ensures s.parse(expected[n]).Some? && s.parse(expected[n]).value !in seen ==>
              ReadTo(s, expected, n + 1, seen + {s.parse(expected[n]).value})
  {
  }

  lemma ReadStops(s: Setting, expected: seq<Source>, n: nat, seen: set<Prefix>)
    requires ReadTo(s, expected, n, seen) && n < |expected|
    requires s.parse(expected[n]).None? || s.parse(expected[n]).value in seen
    ensures !WellFormed(s, multiset(expected))
  {
    var p := Peer("", "", [], expected);
    if s.parse(expected[n]).Some? {
      var j :| 0 <= j < n && s.parse(expected[j]) == s.parse(expected[n]);
      assert !Once(s, p) by { assert p.sources[j] == expected[j] && p.sources[n] == expected[n]; }
    } else {
      assert !Parsable(s, p) by { assert p.sources[n] == expected[n]; }
    }
    WellFormedIff(s, p);
  }

  lemma ReadAll(s: Setting, expected: seq<Source>, seen: set<Prefix>)
    requires ReadTo(s, expected, |expected|, seen) && expected != []
    ensures Denotes(s, multiset(expected), seen)
  {
    var p := Peer("", "", [], expected);
    WellFormedIff(s, p);
    forall q
      ensures q in seen <==> q in PrefixesOf(s, p)
    {
      ParsedIffListed(s, p, q);
    }
  }

  /** Compares a recorded list with the accept list of a device. */
  method SourcesMatch(s: Setting, expected: seq<Source>, actual: set<Prefix>) returns (ok: bool)
    ensures ok <==> Denotes(s, multiset(expected), actual)
  {
    if expected == [] {
      return false;
    }
    var seen: set<Prefix> := {};
    for i := 0 to |expected|
      invariant ReadTo(s, expected, i, seen)
    {
      var prefix := s.parse(expected[i]);
      if prefix.None? || prefix.value in seen {
        ReadStops(s, expected, i, seen);
        return false;
      }
      ReadNext(s, expected, i, seen);
      seen := seen + {prefix.value};
    }
    ReadAll(s, expected, seen);
    ok := seen == actual;
  }

  lemma {:induction false} IdentityHit(peers: seq<Peer>, i: nat)
    requires i < |peers|
    ensures Identity(peers[i]) in Identities(peers) && peers[i].key in Keys(peers)
  {
    if i < |peers| - 1 {
      assert peers[..|peers| - 1][i] == peers[i];
      IdentityHit(peers[..|peers| - 1], i);
    }
  }

  lemma {:induction false} IdentityFrom(peers: seq<Peer>, id: Permission) returns (i: nat)
    requires id in Identities(peers)
    ensures i < |peers| && Identity(peers[i]) == id
  {
    if Identity(peers[|peers| - 1]) == id {
      i := |peers| - 1;
    } else {
      i := IdentityFrom(peers[..|peers| - 1], id);
    }
  }

  lemma {:induction false} IdentitiesAppend(a: seq<Peer>, b: seq<Peer>)
    ensures Identities(a + b) == Identities(a) + Identities(b)
  {
    if b == [] {
      assert a + b == a;
    } else {
      var front, last := b[..|b| - 1], b[|b| - 1];
      IdentitiesAppend(a, front);
      assert (a + b)[..|a + b| - 1] == a + front && (a + b)[|a + b| - 1] == last;
      assert Identities(a + b) == Identities(a + front) + {Identity(last)};
    }
  }

  lemma {:induction false} KeyFrom(peers: seq<Peer>, key: Key) returns (i: nat)
    requires key in Keys(peers)
    ensures i < |peers| && peers[i].key == key
  {
    if peers[|peers| - 1].key == key {
      i := |peers| - 1;
    } else {
      i := KeyFrom(peers[..|peers| - 1], key);
    }
  }

  lemma IdentityKey(peers: seq<Peer>, id: Permission)
    requires id in Identities(peers)
    ensures id.key in Keys(peers)
  {
    var i := IdentityFrom(peers, id);
    IdentityHit(peers, i);
  }

  // ----- Planning the ordinary peers of a publication -----

  predicate Apart(a: set<Prefix>, b: set<Prefix>) {
    forall p | p in a :: forall q | q in b :: !Overlaps(p, q)
  }

  lemma ApartIsDisjoint(a: set<Prefix>, b: set<Prefix>)
    requires Apart(a, b)
    ensures a !! b && Apart(b, a)
  {
    forall p | p in a && p in b
      ensures false
    {
      assert Overlaps(p, p);
    }
  }

  /** What no ordinary peer may touch while `roots` are reserved. */
  function Shield(g: Guard, roots: set<Key>): set<Prefix> {
    g.shielded + set root, q | root in roots && root in g.owned && q in g.owned[root] :: q
  }

  /** Every route host lies within the entry's own sources. */
  predicate Authorized(s: Setting, p: Peer) {
    forall i | 0 <= i < |p.hosts| ::
      && s.address(p.hosts[i]).Some?
      && exists q :: q in PrefixesOf(s, p) && Matches(q, s.address(p.hosts[i]).value)
  }

  /** What every entry must meet by itself. */
  predicate EntryAllowed(s: Setting, g: Guard, shield: set<Prefix>, p: Peer) {
    p.key !in g.transport && Parsable(s, p) && Authorized(s, p) && Apart(PrefixesOf(s, p), shield)
  }

  predicate DistinctKeys(peers: seq<Peer>) {
    forall i, j | 0 <= i < j < |peers| :: peers[i].key != peers[j].key
  }

  /** The entries that no journal owns. */
  function Ordinary(published: seq<Peer>, reserved: set<Key>): seq<Peer> {
    if published == [] then []
    else
      var last := published[|published| - 1];
      Ordinary(published[..|published| - 1], reserved) + if last.key in reserved then [] else [last]
  }

  function AllPrefixes(s: Setting, peers: seq<Peer>): set<Prefix> {
    if peers == [] then {} else AllPrefixes(s, peers[..|peers| - 1]) + PrefixesOf(s, peers[|peers| - 1])
  }

  lemma {:induction false} AllPrefixesHit(s: Setting, peers: seq<Peer>, i: nat)
    requires i < |peers|
    ensures PrefixesOf(s, peers[i]) <= AllPrefixes(s, peers)
  {
    if i < |peers| - 1 {
      assert peers[..|peers| - 1][i] == peers[i];
      AllPrefixesHit(s, peers[..|peers| - 1], i);
    }
  }

  /**
   One entry of a publication, after `earlier`: a new key, and unless a journal owns it, sources
   of its own that neither journals nor earlier ordinary entries touch.
   */
  predicate PlannedAfter(s: Setting, g: Guard, reserved: set<Key>, earlier: seq<Peer>, p: Peer) {
    && s.valid(p.key) && p.key !in Keys(earlier)
    && (p.key in reserved ||
        (EntryAllowed(s, g, Shield(g, reserved), p) &&
         Apart(PrefixesOf(s, p), AllPrefixes(s, Ordinary(earlier, reserved)))))
  }

  predicate Plannable(s: Setting, g: Guard, reserved: set<Key>, published: seq<Peer>) {
    published == [] ||
    (Plannable(s, g, reserved, published[..|published| - 1]) &&
     PlannedAfter(s, g, reserved, published[..|published| - 1], published[|published| - 1]))
  }

  lemma {:induction false} PlannableSoFar(s: Setting, g: Guard, reserved: set<Key>, published: seq<Peer>, k: nat)
    requires Plannable(s, g, reserved, published) && k <= |published|
    ensures Plannable(s, g, reserved, published[..k])
  {
    if k < |published| {
      PlannableSoFar(s, g, reserved, published[..|published| - 1], k);
      assert published[..|published| - 1][..k] == published[..k];
    } else {
      assert published[..k] == published;
    }
  }

  lemma PlannableAt(s: Setting, g: Guard, reserved: set<Key>, published: seq<Peer>, k: nat)
    requires k < |published| && Plannable(s, g, reserved, published[..k])
    ensures if PlannedAfter(s, g, reserved, published[..k], published[k])
            then Plannable(s, g, reserved, published[..k + 1])
            else !Plannable(s, g, reserved, published)
  {
    assert published[..k + 1][..k] == published[..k];
    if Plannable(s, g, reserved, published) {
      PlannableSoFar(s, g, reserved, published, k + 1);
    }
  }

  /** What has been read of a publication. */
  ghost predicate PlannedTo(s: Setting, reserved: set<Key>, earlier: seq<Peer>, ordinary: seq<Peer>, seen: set<Key>,
                            taken: set<Prefix>)
  {
    ordinary == Ordinary(earlier, reserved) && seen == Keys(earlier) && taken == AllPrefixes(s, ordinary)
  }

  lemma PlannedNext(s: Setting, reserved: set<Key>, earlier: seq<Peer>, ordinary: seq<Peer>, seen: set<Key>,
                    taken: set<Prefix>, p: Peer)
    requires PlannedTo(s, reserved, earlier, ordinary, seen, taken)
    ensures if p.key in reserved then PlannedTo(s, reserved, earlier + [p], ordinary, seen + {p.key}, taken)
            else PlannedTo(s, reserved, earlier + [p], ordinary + [p], seen + {p.key}, taken + PrefixesOf(s, p))
  {
    assert (earlier + [p])[..|earlier|] == earlier && (ordinary + [p])[..|ordinary|] == ordinary;
  }

  /** Separates the ordinary entries of a complete publication from what journals own, or refuses it. */
  method PlanPeers(s: Setting, g: Guard, reserved: set<Key>, published: seq<Peer>) returns (desired: Option<seq<Peer>>)
    ensures desired.Some? <==> Plannable(s, g, reserved, published)
    ensures desired.Some? ==> desired.value == Ordinary(published, reserved)
  {
    var ordinary: seq<Peer> := [];
    var seen: set<Key>, taken: set<Prefix> := {}, {};
    for k := 0 to |published|
      invariant Plannable(s, g, reserved, published[..k])
      invariant PlannedTo(s, reserved, published[..k], ordinary, seen, taken)
    {
      var p := published[k];
      var ok := PlanEntry(s, g, reserved, published[..k], p, ordinary, seen, taken);
      PlannableAt(s, g, reserved, published, k);
      if !ok {
        return None;
      }
      assert published[..k + 1] == published[..k] + [p];
      PlannedNext(s, reserved, published[..k], ordinary, seen, taken, p);
      seen := seen + {p.key};
      if p.key !in reserved {
        ordinary, taken := ordinary + [p], taken + PrefixesOf(s, p);
      }
    }
    assert published[..|published|] == published;
    return Some(ordinary);
  }

  method PlanEntry(s: Setting, g: Guard, reserved: set<Key>, ghost earlier: seq<Peer>, p: Peer,
                   ghost ordinary: seq<Peer>, seen: set<Key>, taken: set<Prefix>)
    returns (ok: bool)
    requires PlannedTo(s, reserved, earlier, ordinary, seen, taken)
    ensures ok <==> PlannedAfter(s, g, reserved, earlier, p)
  {
    if !s.valid(p.key) || p.key in seen {
      return false;
    }
    ok := p.key in reserved || (EntryAllowed(s, g, Shield(g, reserved), p) && Apart(PrefixesOf(s, p), taken));
  }

  /** Different keys, none reserved, all readable, and no address in common. */
  ghost predicate Plain(s: Setting, reserved: set<Key>, desired: seq<Peer>) {
    desired == [] ||
    (Plain(s, reserved, desired[..|desired| - 1]) &&
     PlainAfter(s, reserved, desired[..|desired| - 1], desired[|desired| - 1]))
  }

  ghost predicate PlainAfter(s: Setting, reserved: set<Key>, earlier: seq<Peer>, p: Peer) {
    && p.key !in Keys(earlier) && p.key !in reserved && Parsable(s, p)
    && Apart(PrefixesOf(s, p), AllPrefixes(s, earlier))
  }

  lemma {:induction false} PlainAt(s: Setting, reserved: set<Key>, desired: seq<Peer>, j: nat)
    requires Plain(s, reserved, desired) && j < |desired|
    ensures PlainAfter(s, reserved, desired[..j], desired[j])
  {
    var front := desired[..|desired| - 1];
    if j < |front| {
      PlainAt(s, reserved, front, j);
      assert front[..j] == desired[..j] && front[j] == desired[j];
    }
  }

  lemma PlainApart(s: Setting, reserved: set<Key>, desired: seq<Peer>, i: nat, j: nat)
    requires Plain(s, reserved, desired) && i < j < |desired|
    ensures desired[i].key != desired[j].key && Apart(PrefixesOf(s, desired[j]), PrefixesOf(s, desired[i]))
  {
    PlainAt(s, reserved, desired, j);
    assert desired[..j][i] == desired[i];
    IdentityHit(desired[..j], i);
    AllPrefixesHit(s, desired[..j], i);
  }

  lemma PlainIsDistinct(s: Setting, reserved: set<Key>, desired: seq<Peer>)
    requires Plain(s, reserved, desired)
    ensures DistinctKeys(desired) && Keys(desired) !! reserved
  {
    forall i, j | 0 <= i < j < |desired|
      ensures desired[i].key != desired[j].key
    {
      PlainApart(s, reserved, desired, i, j);
    }
    forall key | key in Keys(desired)
      ensures key !in reserved
    {
      var i := KeyFrom(desired, key);
      PlainAt(s, reserved, desired, i);
    }
  }

  /** What a planned publication guarantees about its ordinary entries. */
  lemma {:induction false} OrdinaryIsPlain(s: Setting, g: Guard, reserved: set<Key>, published: seq<Peer>)
    requires Plannable(s, g, reserved, published)
    ensures Plain(s, reserved, Ordinary(published, reserved))
    ensures Keys(Ordinary(published, reserved)) <= Keys(published)
  {
    if published != [] {
      var front, p := published[..|published| - 1], published[|published| - 1];
      OrdinaryIsPlain(s, g, reserved, front);
      var before := Ordinary(front, reserved);
      if p.key !in reserved {
        assert (before + [p])[..|before|] == before;
        KeysAppend(before, p);
      } else {
        assert Ordinary(published, reserved) == before;
      }
    }
  }

  lemma KeysAppend(peers: seq<Peer>, p: Peer)
    ensures Keys(peers + [p]) == Keys(peers) + {p.key}
  {
    assert (peers + [p])[..|peers|] == peers;
  }

  lemma MoreNames(s: Setting, ids: set<Permission>, more: set<Permission>, key: Key, prefixes: set<Prefix>)
    requires Named(s, ids, key, prefixes) && forall id | id in ids && id.key == key :: id in more
    ensures Named(s, more, key, prefixes)
  {
    var id :| id in ids && id.key == key && Denotes(s, id.sources, prefixes);
    assert id in more;
  }

  // ----- Spelling -----

  /** The route scope, which is keyed by spelling, has every source as the kernel spells it. */
  predicate WellSpelled(s: Setting, desired: seq<Peer>) {
    forall i | 0 <= i < |desired| :: SpelledWithin(s, desired, desired[i])
  }

  predicate SpelledWithin(s: Setting, desired: seq<Peer>, p: Peer) {
    forall k | 0 <= k < |p.sources| && s.parse(p.sources[k]).Some? ::
      exists j :: 0 <= j < |desired| && s.spell(s.parse(p.sources[k]).value) in desired[j].sources
  }

  predicate ListsOnce(s: Setting, desired: seq<Peer>) {
    forall i | 0 <= i < |desired| :: Once(s, desired[i])
  }

  /** The keys whose entries spell a prefix twice. */
  function Repeating(s: Setting, desired: seq<Peer>): set<Key> {
    set i | 0 <= i < |desired| && !Once(s, desired[i]) :: desired[i].key
  }

  /** Every source as the kernel spells it, and none twice. */
  predicate Canonical(s: Setting, p: Peer) {
    && (forall k | 0 <= k < |p.sources| :: s.parse(p.sources[k]).Some?)
    && (forall k | 0 <= k < |p.sources| :: s.spell(s.parse(p.sources[k]).value) == p.sources[k])
    && (forall i, j | 0 <= i < j < |p.sources| :: p.sources[i] != p.sources[j])
  }

  /** The kernel's spelling of a prefix is read as that prefix. */
  ghost predicate Sound(s: Setting) {
    forall raw | s.parse(raw).Some? :: s.parse(s.spell(s.parse(raw).value)) == s.parse(raw)
  }

  lemma CanonicalIsOnce(s: Setting, p: Peer)
    requires Canonical(s, p)
    ensures Once(s, p)
  {
    forall i, j | 0 <= i < j < |p.sources|
      ensures s.parse(p.sources[i]) != s.parse(p.sources[j])
    {
      assert s.spell(s.parse(p.sources[i]).value) == p.sources[i];
      assert s.spell(s.parse(p.sources[j]).value) == p.sources[j];
    }
  }

  /** In a plain list a prefix belongs to one entry, and once to each spelling. */
  lemma OneSpelling(s: Setting, desired: seq<Peer>, i: nat, k: nat, j: nat, l: nat)
    requires Plain(s, {}, desired) && i < |desired| && j < |desired| && Once(s, desired[i])
    requires k < |desired[i].sources| && l < |desired[j].sources|
    requires s.parse(desired[i].sources[k]).Some? && s.parse(desired[i].sources[k]) == s.parse(desired[j].sources[l])
    ensures i == j && k == l
  {
    var q := s.parse(desired[i].sources[k]).value;
    ParsedIffListed(s, desired[i], q);
    ParsedIffListed(s, desired[j], q);
    assert Overlaps(q, q);
    if i < j {
      PlainApart(s, {}, desired, i, j);
    } else if j < i {
      PlainApart(s, {}, desired, j, i);
    }
  }

  lemma SpelledIsCanonical(s: Setting, desired: seq<Peer>, i: nat, k: nat)
    requires Sound(s) && Plain(s, {}, desired) && i < |desired| && k < |desired[i].sources|
    requires SpelledWithin(s, desired, desired[i]) && Once(s, desired[i]) && s.parse(desired[i].sources[k]).Some?
    ensures s.spell(s.parse(desired[i].sources[k]).value) == desired[i].sources[k]
  {
    var raw := s.spell(s.parse(desired[i].sources[k]).value);
    var j :| 0 <= j < |desired| && raw in desired[j].sources;
    var l :| 0 <= l < |desired[j].sources| && desired[j].sources[l] == raw;
    OneSpelling(s, desired, i, k, j, l);
  }

  lemma OnceIsDistinct(s: Setting, p: Peer)
    requires Parsable(s, p) && Once(s, p)
    ensures forall i, j | 0 <= i < j < |p.sources| :: p.sources[i] != p.sources[j]
  {
    forall i, j | 0 <= i < j < |p.sources|
      ensures p.sources[i] != p.sources[j]
    {
      assert s.parse(p.sources[i]) != s.parse(p.sources[j]);
    }
  }

  lemma SpelledOnceIsCanonical(s: Setting, desired: seq<Peer>, i: nat)
    requires Sound(s) && Plain(s, {}, desired) && i < |desired|
    requires SpelledWithin(s, desired, desired[i]) && Once(s, desired[i])
    ensures Canonical(s, desired[i])
  {
    var p := desired[i];
    PlainAt(s, {}, desired, i);
    OnceIsDistinct(s, p);
    forall k | 0 <= k < |p.sources|
      ensures s.spell(s.parse(p.sources[k]).value) == p.sources[k]
    {
      SpelledIsCanonical(s, desired, i, k);
    }
  }

  /** A pass settles exactly the publications in which every source is spelled as the kernel spells it, once. */
  lemma SpelledOnceIff(s: Setting, desired: seq<Peer>)
    requires Sound(s) && Plain(s, {}, desired)
    ensures WellSpelled(s, desired) && ListsOnce(s, desired) <==>
              forall i | 0 <= i < |desired| :: Canonical(s, desired[i])
  {
    if WellSpelled(s, desired) && ListsOnce(s, desired) {
      forall i | 0 <= i < |desired|
        ensures Canonical(s, desired[i])
      {
        SpelledOnceIsCanonical(s, desired, i);
      }
    }
    if forall i | 0 <= i < |desired| :: Canonical(s, desired[i]) {
      forall i | 0 <= i < |desired|
        ensures Once(s, desired[i]) && SpelledWithin(s, desired, desired[i])
      {
        CanonicalIsOnce(s, desired[i]);
      }
    }
  }
}
