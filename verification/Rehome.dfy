/**
 Moving a declared transit set from a silent relay to a live local.

 The results are what the move conserves, that it elects the least address whatever order the
 peers are listed in, that it does nothing while the declared owner is alive, and that doing it
 twice is doing it once.
 */
module Rehome {
  import opened Options
  import opened Sequences

  const REJECT_AFTER_TIME := 180

  datatype Peer = Peer(key: string, remote: bool, endpoint: string, allowed: seq<string>, hosts: seq<string>,
                       transit: seq<string>, transitHosts: seq<string>)

  /** The kernel's handshake clock; zero means never. */
  type Clock = map<string, int>

  predicate Live(key: string, clock: Clock, now: int) {
    key in clock && clock[key] != 0 && now - clock[key] < REJECT_AFTER_TIME
  }

  predicate Declares(p: Peer) {
    p.transit != [] || p.transitHosts != []
  }

  // ----- Address order -----

  predicate LexLess(a: seq<int>, b: seq<int>) {
    b != [] && (a == [] || a[0] < b[0] || (a[0] == b[0] && LexLess(a[1..], b[1..])))
  }

  function Chars(s: string): seq<int> {
    seq(|s|, i requires 0 <= i < |s| => s[i] as int)
  }

  /** Byte order of the addresses, or of the texts when one is not an address. */
  predicate LessIP(parse: string -> Option<seq<int>>, a: string, b: string) {
    if parse(a).None? || parse(b).None? then LexLess(Chars(a), Chars(b)) else LexLess(parse(a).value, parse(b).value)
  }

  lemma {:induction false} LexTransitive(a: seq<int>, b: seq<int>, c: seq<int>)
    requires LexLess(a, b) && LexLess(b, c)
    ensures LexLess(a, c)
  {
    if a != [] && a[0] == b[0] == c[0] {
      LexTransitive(a[1..], b[1..], c[1..]);
    }
  }

  lemma {:induction false} LexTotal(a: seq<int>, b: seq<int>)
    ensures !(LexLess(a, b) && LexLess(b, a))
    ensures a == b || LexLess(a, b) || LexLess(b, a)
  {
    if a != [] && b != [] && a[0] == b[0] {
      LexTotal(a[1..], b[1..]);
      if a[1..] == b[1..] {
        assert a == [a[0]] + a[1..] && b == [b[0]] + b[1..];
      }
    }
  }

  // ----- The choice -----

  function FirstOwner(peers: seq<Peer>): (owner: int)
    ensures -1 <= owner < |peers|
    ensures owner >= 0 ==> Declares(peers[owner]) && forall i | 0 <= i < owner :: !Declares(peers[i])
    ensures owner < 0 ==> forall i | 0 <= i < |peers| :: !Declares(peers[i])
  {
    if peers == [] then -1
    else
      var front := FirstOwner(peers[..|peers| - 1]);
      if front >= 0 then front else if Declares(peers[|peers| - 1]) then |peers| - 1 else -1
  }

  predicate Candidate(peers: seq<Peer>, owner: int, i: int, clock: Clock, now: int)
    requires 0 <= i < |peers|
  {
    i != owner && !peers[i].remote && peers[i].endpoint == "" && Live(peers[i].key, clock, now) && peers[i].hosts != []
  }

  /** The best of the first `n` peers, or -1. */
  function Elect(peers: seq<Peer>, owner: int, n: nat, parse: string -> Option<seq<int>>, clock: Clock,
      now: int): (best: int)
    requires n <= |peers|
    ensures -1 <= best < n && (best >= 0 ==> Candidate(peers, owner, best, clock, now))
    ensures best < 0 ==> forall i | 0 <= i < n :: !Candidate(peers, owner, i, clock, now)
  {
    if n == 0 then -1
    else
      var best := Elect(peers, owner, n - 1, parse, clock, now);
      if !Candidate(peers, owner, n - 1, clock, now) then best
      else if best < 0 || LessIP(parse, peers[n - 1].hosts[0], peers[best].hosts[0]) then n - 1
      else best
  }

  /** The candidates' first addresses are addresses. */
  ghost predicate Addressed(peers: seq<Peer>, owner: int, parse: string -> Option<seq<int>>, clock: Clock, now: int) {
    forall i | 0 <= i < |peers| && Candidate(peers, owner, i, clock, now) :: parse(peers[i].hosts[0]).Some?
  }

  /** Nobody eligible has a lower address than the elected peer. */
  lemma {:induction false} ElectedIsLeast(peers: seq<Peer>, owner: int, n: nat, parse: string -> Option<seq<int>>,
                                          clock: Clock, now: int)
    requires n <= |peers| && Addressed(peers, owner, parse, clock, now)
    requires Elect(peers, owner, n, parse, clock, now) >= 0
    ensures var best := Elect(peers, owner, n, parse, clock, now);
            forall i | 0 <= i < n && Candidate(peers, owner, i, clock, now) ::
              !LessIP(parse, peers[i].hosts[0], peers[best].hosts[0])
  {
    var before, best := Elect(peers, owner, n - 1, parse, clock, now), Elect(peers, owner, n, parse, clock, now);
    if before >= 0 {
      ElectedIsLeast(peers, owner, n - 1, parse, clock, now);
    }
    forall i | 0 <= i < n && Candidate(peers, owner, i, clock, now)
      ensures !LessIP(parse, peers[i].hosts[0], peers[best].hosts[0])
    {
      var a, b := parse(peers[i].hosts[0]).value, parse(peers[best].hosts[0]).value;
      LexTotal(a, b);
      if best != before && before >= 0 {
        var c := parse(peers[before].hosts[0]).value;
        LexTotal(a, c);
        if i < n - 1 && LexLess(a, b) {
          LexTransitive(a, b, c);
        }
      }
    }
  }

  // ----- The move -----

  function Keep(entries: seq<string>, moving: seq<string>): seq<string> {
    if entries == [] then []
    else
      var last := entries[|entries| - 1];
      Keep(entries[..|entries| - 1], moving) + if last in moving then [] else [last]
  }

  function Gain(entries: seq<string>, moving: seq<string>): seq<string> {
    if moving == [] then entries
    else
      var front, last := Gain(entries, moving[..|moving| - 1]), moving[|moving| - 1];
      if last in front then front else front + [last]
  }

  function Moved(peers: seq<Peer>, owner: nat, best: nat): seq<Peer>
    requires owner < |peers| && best < |peers|
  {
    var from, to := peers[owner], peers[best];
    var loser := from.(allowed := Keep(from.allowed, from.transit), hosts := Keep(from.hosts, from.transitHosts),
                       transit := [], transitHosts := []);
    var gainer := to.(allowed := Gain(to.allowed, from.transit), hosts := Gain(to.hosts, from.transitHosts),
                      transit := from.transit, transitHosts := from.transitHosts);
    peers[owner := loser][best := gainer]
  }

  function Rehomed(peers: seq<Peer>, parse: string -> Option<seq<int>>, clock: Clock, now: int): seq<Peer> {
    var owner := FirstOwner(peers);
    if owner < 0 || Live(peers[owner].key, clock, now) then peers
    else
      var best := Elect(peers, owner, |peers|, parse, clock, now);
      if best < 0 then peers else Moved(peers, owner, best)
  }

  /** The last handshake, if there was one, is less than the reject time ago. */
  ghost predicate HeardFrom(key: string, clock: Clock, now: int) {
    exists t :: (key, t) in clock.Items && t != 0 && now < t + REJECT_AFTER_TIME
  }

  lemma LiveIsHeardFrom(key: string, clock: Clock, now: int)
    ensures Live(key, clock, now) <==> HeardFrom(key, clock, now)
  {
    if Live(key, clock, now) {
      assert (key, clock[key]) in clock.Items;
    }
  }

  /** The first declared owner has been silent, and another local relay without an endpoint is heard from. */
  ghost predicate Movable(peers: seq<Peer>, owner: int, best: int, clock: Clock, now: int) {
    && 0 <= owner < |peers| && 0 <= best < |peers| && owner != best
    && Declares(peers[owner]) && (forall i | 0 <= i < owner :: !Declares(peers[i]))
    && !HeardFrom(peers[owner].key, clock, now) && HeardFrom(peers[best].key, clock, now)
    && !peers[best].remote && peers[best].endpoint == "" && peers[best].hosts != []
  }

  /** The list changes only by moving the declaration to such a relay, and whenever there is one it does. */
  lemma RehomedIff(peers: seq<Peer>, parse: string -> Option<seq<int>>, clock: Clock, now: int)
    returns (owner: int, best: int)
    ensures if Movable(peers, owner, best, clock, now)
            then Rehomed(peers, parse, clock, now) == Moved(peers, owner, best)
            else Rehomed(peers, parse, clock, now) == peers && forall o, b :: !Movable(peers, o, b, clock, now)
  {
    owner := FirstOwner(peers);
    best := if owner < 0 then -1 else Elect(peers, owner, |peers|, parse, clock, now);
    forall key
      ensures Live(key, clock, now) <==> HeardFrom(key, clock, now)
    {
      LiveIsHeardFrom(key, clock, now);
    }
    forall o, b | Movable(peers, o, b, clock, now)
      ensures Movable(peers, owner, best, clock, now)
    {
      assert o == owner;
      assert Candidate(peers, owner, b, clock, now);
    }
  }

  method KeepRest(entries: seq<string>, moving: seq<string>) returns (kept: seq<string>)
    ensures kept == Keep(entries, moving)
  {
    kept := [];
    for k := 0 to |entries|
      invariant kept == Keep(entries[..k], moving)
    {
      assert entries[..k + 1][..k] == entries[..k];
      if entries[k] !in moving {
        kept := kept + [entries[k]];
      }
    }
    assert entries[..|entries|] == entries;
  }

  method GainMissing(entries: seq<string>, moving: seq<string>) returns (gained: seq<string>)
    ensures gained == Gain(entries, moving)
  {
    gained := entries;
    for k := 0 to |moving|
      invariant gained == Gain(entries, moving[..k])
    {
      assert moving[..k + 1][..k] == moving[..k];
      if moving[k] !in gained {
        gained := gained + [moving[k]];
      }
    }
    assert moving[..|moving|] == moving;
  }

  method RehomeTransit(peers: seq<Peer>, parse: string -> Option<seq<int>>, clock: Clock, now: int)
    returns (out: seq<Peer>)
    ensures out == Rehomed(peers, parse, clock, now)
    ensures (forall i | 0 <= i < |peers| && Declares(peers[i]) :: Live(peers[i].key, clock, now)) ==> out == peers
  {
    var owner := -1;
    for i := 0 to |peers|
      invariant owner == -1 && forall j | 0 <= j < i :: !Declares(peers[j])
    {
      if |peers[i].transit| > 0 || |peers[i].transitHosts| > 0 {
        owner := i;
        break;
      }
    }
    if owner < 0 {
      return peers;
    }
    assert owner == FirstOwner(peers);
    if Live(peers[owner].key, clock, now) {
      return peers;
    }
    var best := -1;
    for i := 0 to |peers|
      invariant best == Elect(peers, owner, i, parse, clock, now)
    {
      if i == owner || peers[i].remote || peers[i].endpoint != "" {
        continue;
      }
      if !Live(peers[i].key, clock, now) {
        continue;
      }
      if |peers[i].hosts| == 0 {
        continue;
      }
      if best < 0 || LessIP(parse, peers[i].hosts[0], peers[best].hosts[0]) {
        best := i;
      }
    }
    if best < 0 {
      return peers;
    }
    var from, to := peers[owner], peers[best];
    var keepAllowed := KeepRest(from.allowed, from.transit);
    var keepHosts := KeepRest(from.hosts, from.transitHosts);
    var gainAllowed := GainMissing(to.allowed, from.transit);
    var gainHosts := GainMissing(to.hosts, from.transitHosts);
    out := peers[owner := from.(allowed := keepAllowed, hosts := keepHosts, transit := [], transitHosts := [])];
    var gainer := to.(allowed := gainAllowed, hosts := gainHosts,
                      transit := from.transit, transitHosts := from.transitHosts);
    out := out[best := gainer];
  }

  // ----- What the move conserves -----

  function Elements(entries: seq<string>): set<string> {
    set e | e in entries
  }

  lemma {:induction false} KeepElements(entries: seq<string>, moving: seq<string>)
    ensures Elements(Keep(entries, moving)) == Elements(entries) - Elements(moving)
  {
    if entries != [] {
      var front, last := entries[..|entries| - 1], entries[|entries| - 1];
      KeepElements(front, moving);
      assert entries == front + [last];
      assert forall e :: e in Keep(entries, moving) <==> e in Keep(front, moving) || (e == last && last !in moving);
      assert forall e :: e in Keep(front, moving) <==> e in Elements(Keep(front, moving));
    }
  }

  lemma {:induction false} GainElements(entries: seq<string>, moving: seq<string>)
    ensures Elements(Gain(entries, moving)) == Elements(entries) + Elements(moving)
  {
    if moving != [] {
      var front, last := moving[..|moving| - 1], moving[|moving| - 1];
      GainElements(entries, front);
      assert moving == front + [last];
      assert forall e :: e in Gain(entries, moving) <==> e in Gain(entries, front) || e == last;
      assert forall e :: e in Gain(entries, front) <==> e in Elements(Gain(entries, front));
    }
  }

  /** Every accept entry, whoever holds it. */
  function Accepted(peers: seq<Peer>): set<string> {
    set i, e | 0 <= i < |peers| && e in peers[i].allowed :: e
  }

  /** No accept entry is held twice. */
  ghost predicate Disjoint(peers: seq<Peer>) {
    forall i, j | 0 <= i < j < |peers| :: Elements(peers[i].allowed) !! Elements(peers[j].allowed)
  }

  /** The relay that moves and the one it moves to, when there is a move. */
  ghost predicate Moves(peers: seq<Peer>, parse: string -> Option<seq<int>>, clock: Clock, now: int, owner: int,
                        best: int) {
    && owner == FirstOwner(peers) && owner >= 0 && !Live(peers[owner].key, clock, now)
    && best == Elect(peers, owner, |peers|, parse, clock, now) && best >= 0
  }

  lemma MovedEntries(peers: seq<Peer>, owner: nat, best: nat, i: nat)
    requires owner < |peers| && best < |peers| && owner != best && i < |peers|
    ensures var out, moving := Moved(peers, owner, best), Elements(peers[owner].transit);
            Elements(out[i].allowed) == if i == owner then Elements(peers[i].allowed) - moving
                                        else if i == best then Elements(peers[i].allowed) + moving
                                        else Elements(peers[i].allowed)
  {
    KeepElements(peers[owner].allowed, peers[owner].transit);
    GainElements(peers[best].allowed, peers[owner].transit);
  }

  lemma MovedAccepts(peers: seq<Peer>, owner: nat, best: nat)
    requires owner < |peers| && best < |peers| && owner != best
    ensures Accepted(Moved(peers, owner, best)) == Accepted(peers) + Elements(peers[owner].transit)
  {
    var out, moving := Moved(peers, owner, best), Elements(peers[owner].transit);
    forall e
      ensures e in Accepted(out) <==> e in Accepted(peers) || e in moving
    {
      if i :| 0 <= i < |out| && e in out[i].allowed {
        MovedEntries(peers, owner, best, i);
        assert e in Elements(out[i].allowed);
        assert e in moving || (e in Elements(peers[i].allowed) && e in peers[i].allowed);
      }
      if e in moving {
        MovedEntries(peers, owner, best, best);
        assert e in Elements(out[best].allowed);
      } else if i :| 0 <= i < |peers| && e in peers[i].allowed {
        MovedEntries(peers, owner, best, i);
        assert e in Elements(peers[i].allowed) && e in Elements(out[i].allowed);
      }
    }
  }

  /**
   A move keeps the accept lists disjoint and their union unchanged exactly when every declared
   transit entry is in the accept list of the relay that loses it or of the one that gains it.
   */
  lemma MoveConservesIff(peers: seq<Peer>, parse: string -> Option<seq<int>>, clock: Clock, now: int, owner: int,
                         best: int)
    requires Moves(peers, parse, clock, now, owner, best) && Disjoint(peers)
    ensures var out := Rehomed(peers, parse, clock, now);
            Accepted(out) == Accepted(peers) && Disjoint(out)
            <==> Elements(peers[owner].transit) <= Elements(peers[owner].allowed) + Elements(peers[best].allowed)
  {
    var out, moving := Moved(peers, owner, best), Elements(peers[owner].transit);
    MovedAccepts(peers, owner, best);
    if moving <= Elements(peers[owner].allowed) + Elements(peers[best].allowed) {
      OwnedMoveConserves(peers, owner, best);
    } else {
      var e :| e in moving && e !in Elements(peers[owner].allowed) + Elements(peers[best].allowed);
      if Accepted(out) == Accepted(peers) {
        assert e in Accepted(peers);
        var i :| 0 <= i < |peers| && e in peers[i].allowed;
        HeldTwice(peers, owner, best, i, e);
      }
    }
  }

  /** Every routed host, whoever routes it. */
  function Routed(peers: seq<Peer>): set<string> {
    set i, h | 0 <= i < |peers| && h in peers[i].hosts :: h
  }

  lemma MovedHosts(peers: seq<Peer>, owner: nat, best: nat, i: nat)
    requires owner < |peers| && best < |peers| && owner != best && i < |peers|
    ensures var out, moving := Moved(peers, owner, best), Elements(peers[owner].transitHosts);
            Elements(out[i].hosts) == if i == owner then Elements(peers[i].hosts) - moving
                                      else if i == best then Elements(peers[i].hosts) + moving
                                      else Elements(peers[i].hosts)
  {
    KeepElements(peers[owner].hosts, peers[owner].transitHosts);
    GainElements(peers[best].hosts, peers[owner].transitHosts);
  }

  /** A move keeps the routed hosts exactly when every declared host was routed by someone. */
  lemma MoveRoutesIff(peers: seq<Peer>, parse: string -> Option<seq<int>>, clock: Clock, now: int, owner: int,
                      best: int)
    requires Moves(peers, parse, clock, now, owner, best)
    ensures Routed(Rehomed(peers, parse, clock, now)) == Routed(peers) <==>
              Elements(peers[owner].transitHosts) <= Routed(peers)
    ensures var out := Rehomed(peers, parse, clock, now);
            && out[best].transit == peers[owner].transit
            && out[best].transitHosts == peers[owner].transitHosts && !Declares(out[owner])
            && |out| == |peers| && forall i | 0 <= i < |peers| && i != owner && i != best :: out[i] == peers[i]
  {
    var out, moving := Moved(peers, owner, best), Elements(peers[owner].transitHosts);
    forall h
      ensures h in Routed(out) <==> h in Routed(peers) || h in moving
    {
      if i :| 0 <= i < |out| && h in out[i].hosts {
        MovedHosts(peers, owner, best, i);
        assert h in Elements(out[i].hosts);
        assert h in moving || (h in Elements(peers[i].hosts) && h in peers[i].hosts);
      }
      if h in moving {
        MovedHosts(peers, owner, best, best);
        assert h in Elements(out[best].hosts);
      } else if i :| 0 <= i < |peers| && h in peers[i].hosts {
        MovedHosts(peers, owner, best, i);
        assert h in Elements(peers[i].hosts) && h in Elements(out[i].hosts);
      }
    }
  }

  lemma HeldTwice(peers: seq<Peer>, owner: nat, best: nat, i: nat, e: string)
    requires owner < |peers| && best < |peers| && owner != best && i < |peers| && i != best && i != owner
    requires e in peers[i].allowed && e in peers[owner].transit
    ensures !Disjoint(Moved(peers, owner, best))
  {
    var out := Moved(peers, owner, best);
    MovedEntries(peers, owner, best, i);
    MovedEntries(peers, owner, best, best);
    assert e in Elements(peers[i].allowed);
    assert e in Elements(out[i].allowed) && e in Elements(out[best].allowed);
    var a, b := if i < best then i else best, if i < best then best else i;
    assert !(Elements(out[a].allowed) !! Elements(out[b].allowed));
  }

  lemma OwnedMoveConserves(peers: seq<Peer>, owner: nat, best: nat)
    requires owner < |peers| && best < |peers| && owner != best && Disjoint(peers)
    requires Elements(peers[owner].transit) <= Elements(peers[owner].allowed) + Elements(peers[best].allowed)
    ensures Disjoint(Moved(peers, owner, best)) && Accepted(Moved(peers, owner, best)) == Accepted(peers)
  {
    var out := Moved(peers, owner, best);
    forall i, j | 0 <= i < j < |out|
      ensures Elements(out[i].allowed) !! Elements(out[j].allowed)
    {
      MovedEntries(peers, owner, best, i);
      MovedEntries(peers, owner, best, j);
    }
    MovedAccepts(peers, owner, best);
    forall e | e in Elements(peers[owner].transit)
      ensures e in Accepted(peers)
    {
      assert e in peers[owner].allowed || e in peers[best].allowed;
    }
  }

  // ----- Doing it again -----

  ghost predicate OneOwner(peers: seq<Peer>, owner: int) {
    forall i | 0 <= i < |peers| && i != owner :: !Declares(peers[i])
  }

  /** With one declared owner a second pass changes nothing. */
  lemma RehomingIsIdempotent(peers: seq<Peer>, parse: string -> Option<seq<int>>, clock: Clock, now: int)
    requires OneOwner(peers, FirstOwner(peers))
    ensures Rehomed(Rehomed(peers, parse, clock, now), parse, clock, now) == Rehomed(peers, parse, clock, now)
  {
    var owner := FirstOwner(peers);
    if owner >= 0 && !Live(peers[owner].key, clock, now) {
      var best := Elect(peers, owner, |peers|, parse, clock, now);
      if best >= 0 {
        var out := Moved(peers, owner, best);
        assert Declares(out[best]) && forall i | 0 <= i < |out| && i != best :: !Declares(out[i]);
        assert FirstOwner(out) == best;
        assert Live(out[best].key, clock, now);
      }
    }
  }

  /** With two declared owners a second pass moves the other one's set and drops the first's. */
  lemma TwoOwnersMoveTwice(parse: string -> Option<seq<int>>)
    ensures exists peers: seq<Peer>, clock, now ::
              Rehomed(Rehomed(peers, parse, clock, now), parse, clock, now) != Rehomed(peers, parse, clock, now)
  {
    var a := Peer("a", false, "", ["10.0.0.0/8"], ["10.0.0.1"], ["10.0.0.0/8"], []);
    var b := Peer("b", false, "", ["172.16.0.0/12"], ["172.16.0.1"], ["172.16.0.0/12"], []);
    var c := Peer("c", false, "", [], ["192.0.2.1"], [], []);
    var peers, clock, now := [a, b, c], map["c" := 100], 200;
    assert FirstOwner(peers) == 0;
    ElectThird(peers, 0, parse, clock, now);
    var once := Moved(peers, 0, 2);
    assert Rehomed(peers, parse, clock, now) == once;
    assert once[0].transit == [] && once[1] == b && once[2].transit == ["10.0.0.0/8"];
    assert once[2].key == "c" && once[0].key == "a";
    assert FirstOwner(once) == 1;
    GainElements(["192.0.2.1"], []);
    assert once[2].hosts == ["192.0.2.1"];
    ElectThird(once, 1, parse, clock, now);
    assert Rehomed(once, parse, clock, now)[1].transit == [];
  }

  lemma ElectThird(peers: seq<Peer>, owner: int, parse: string -> Option<seq<int>>, clock: Clock, now: int)
    requires |peers| == 3 && 0 <= owner < 2 && Candidate(peers, owner, 2, clock, now)
    requires !Candidate(peers, owner, 0, clock, now) && !Candidate(peers, owner, 1, clock, now)
    ensures Elect(peers, owner, 3, parse, clock, now) == 2
  {
    assert Elect(peers, owner, 1, parse, clock, now) == -1;
    assert Elect(peers, owner, 2, parse, clock, now) == -1;
  }

  // ----- List order -----

  /** Different peers have different first addresses. */
  ghost predicate DistinctAddresses(peers: seq<Peer>, parse: string -> Option<seq<int>>) {
    forall i, j | 0 <= i < |peers| && 0 <= j < |peers| && peers[i] != peers[j] && peers[i].hosts != [] &&
      peers[j].hosts != [] ::
      parse(peers[i].hosts[0]) != parse(peers[j].hosts[0])
  }

  lemma SamePeer(a: seq<Peer>, b: seq<Peer>, i: nat) returns (j: nat)
    requires multiset(a) == multiset(b) && i < |a|
    ensures j < |b| && b[j] == a[i]
  {
    assert a[i] in multiset(a);
    assert a[i] in multiset(b);
    j :| 0 <= j < |b| && b[j] == a[i];
  }

  /** A reordered list has the same one owner. */
  lemma OwnerIgnoresOrder(a: seq<Peer>, b: seq<Peer>)
    requires multiset(a) == multiset(b) && FirstOwner(a) >= 0 && OneOwner(a, FirstOwner(a))
    ensures FirstOwner(b) >= 0 && OneOwner(b, FirstOwner(b)) && b[FirstOwner(b)] == a[FirstOwner(a)]
  {
    var oa, ob := FirstOwner(a), FirstOwner(b);
    var o := SamePeer(a, b, oa);
    assert Declares(b[o]);
    SingleCounts(a, oa);
    forall i | 0 <= i < |b| && Declares(b[i])
      ensures b[i] == a[oa]
    {
      var k := SamePeer(b, a, i);
    }
    forall i | 0 <= i < |b| && i != ob
      ensures !Declares(b[i])
    {
      if Declares(b[i]) {
        RepeatCounts(b, if i < ob then i else ob, if i < ob then ob else i);
      }
    }
  }

  /** The relay elected from a list is the relay elected from any reordering of it. */
  lemma ElectionIgnoresOrder(a: seq<Peer>, b: seq<Peer>, parse: string -> Option<seq<int>>, clock: Clock, now: int,
                             oa: int, ba: int)
    requires multiset(a) == multiset(b) && OneOwner(a, oa) && DistinctAddresses(a, parse)
    requires Moves(a, parse, clock, now, oa, ba) && Addressed(a, oa, parse, clock, now)
    ensures var ob := FirstOwner(b);
            var bb := Elect(b, ob, |b|, parse, clock, now);
            Moves(b, parse, clock, now, ob, bb) && b[ob] == a[oa] && b[bb] == a[ba]
  {
    OwnerIgnoresOrder(a, b);
    var ob := FirstOwner(b);
    CandidatesIgnoreOrder(a, b, parse, clock, now);
    var x := SamePeer(a, b, ba);
    assert Candidate(b, ob, x, clock, now);
    var bb := Elect(b, ob, |b|, parse, clock, now);
    var y := SamePeer(b, a, bb);
    assert Candidate(a, oa, y, clock, now);
    ElectedIsLeast(a, oa, |a|, parse, clock, now);
    ElectedIsLeast(b, ob, |b|, parse, clock, now);
    LexTotal(parse(a[ba].hosts[0]).value, parse(a[y].hosts[0]).value);
  }

  lemma CandidatesIgnoreOrder(a: seq<Peer>, b: seq<Peer>, parse: string -> Option<seq<int>>, clock: Clock, now: int)
    requires multiset(a) == multiset(b)
    requires FirstOwner(a) >= 0 && OneOwner(a, FirstOwner(a)) && FirstOwner(b) >= 0 && OneOwner(b, FirstOwner(b))
    requires Addressed(a, FirstOwner(a), parse, clock, now)
    ensures Addressed(b, FirstOwner(b), parse, clock, now)
  {
    forall i | 0 <= i < |b| && Candidate(b, FirstOwner(b), i, clock, now)
      ensures parse(b[i].hosts[0]).Some?
    {
      var k := SamePeer(b, a, i);
      assert Candidate(a, FirstOwner(a), k, clock, now);
    }
  }
}
