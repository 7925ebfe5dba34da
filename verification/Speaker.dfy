/**
 The transit speaker and its memory of what it has spoken.

 `advertised` remembers the preference of each prefix by its spelling; the table holds one path
 per network. The results say when the two mirror each other: after every call, including calls
 that stop midway, as long as no network is spelled in two ways, and only then.
 */
module Speaker {
  import opened Options

  datatype Network = Network(v6: bool, id: int)

  /** Section 5.1.4 of RFC 4271 for the preference; 5.1.3 of RFC 4271 and section 3 of RFC 4760 for the next hop. */
  datatype Path = Path(med: nat, nextHop: string)

  datatype Route = Route(prefix: string, med: nat)

  type Parse = string -> Option<Network>

  function Trim(s: string): string {
    if s == "" then "" else if s[0] == ' ' then Trim(s[1..]) else if s[|s| - 1] == ' ' then Trim(s[..|s| - 1]) else s
  }

  predicate Spoken(prefix: string, nextHop6: string) {
    prefix != "" && !(':' in prefix && nextHop6 == "")
  }

  /** What a route list asks for: one preference per spelling, the last one given. */
  function Wanted(routes: seq<Route>, nextHop6: string): map<string, nat> {
    if routes == [] then map[]
    else
      var front, last := Wanted(routes[..|routes| - 1], nextHop6), routes[|routes| - 1];
      if Spoken(Trim(last.prefix), nextHop6) then front[Trim(last.prefix) := last.med] else front
  }

  lemma {:induction false} WantedIsSpoken(routes: seq<Route>, nextHop6: string)
    ensures forall s | s in Wanted(routes, nextHop6) :: Spoken(s, nextHop6)
  {
    if routes != [] {
      WantedIsSpoken(routes[..|routes| - 1], nextHop6);
    }
  }

  /** No network has two spellings among `spellings`. */
  ghost predicate Unambiguous(parse: Parse, spellings: set<string>) {
    forall s, t | s in spellings && t in spellings && s != t :: parse(s).None? || parse(s) != parse(t)
  }

  function PathFor(n: Network, med: nat, nextHop: string, nextHop6: string): Path {
    Path(med, if n.v6 then nextHop6 else nextHop)
  }

  /** Each remembered spelling has its path, and each path its one spelling. */
  ghost predicate Mirrors(parse: Parse, advertised: map<string, nat>, table: map<Network, Path>, nextHop: string,
                          nextHop6: string) {
    && Unambiguous(parse, advertised.Keys)
    && (forall s | s in advertised :: parse(s).Some? && parse(s).value in table
                                      && table[parse(s).value] ==
                                           PathFor(parse(s).value, advertised[s], nextHop, nextHop6))
    && (forall n | n in table :: exists s :: s in advertised && parse(s) == Some(n))
  }

  lemma AnnounceMirrors(parse: Parse, advertised: map<string, nat>, table: map<Network, Path>, nextHop: string,
                        nextHop6: string, s: string, med: nat)
    requires Mirrors(parse, advertised, table, nextHop, nextHop6) && parse(s).Some?
    requires Unambiguous(parse, advertised.Keys + {s})
    ensures Mirrors(parse, advertised[s := med],
              table[parse(s).value := PathFor(parse(s).value, med, nextHop, nextHop6)], nextHop, nextHop6)
  {
    var a, t := advertised[s := med], table[parse(s).value := PathFor(parse(s).value, med, nextHop, nextHop6)];
    assert a.Keys == advertised.Keys + {s};
    AnnouncedAreSpelled(parse, advertised, table, s);
    forall q | q in a
      ensures parse(q).Some? && parse(q).value in t
      ensures t[parse(q).value] == PathFor(parse(q).value, a[q], nextHop, nextHop6)
    {
      if q != s {
        assert q in advertised && parse(q) != parse(s);
      }
    }
  }

  lemma AnnouncedAreSpelled(parse: Parse, advertised: map<string, nat>, table: map<Network, Path>, s: string)
    requires parse(s).Some? && forall n | n in table :: exists q :: q in advertised && parse(q) == Some(n)
    ensures forall n | n in table.Keys + {parse(s).value} :: exists q ::
              q in advertised.Keys + {s} && parse(q) == Some(n)
  {
    forall n | n in table.Keys + {parse(s).value}
      ensures exists q :: q in advertised.Keys + {s} && parse(q) == Some(n)
    {
      if n == parse(s).value {
        assert s in advertised.Keys + {s};
      } else {
        var q :| q in advertised && parse(q) == Some(n);
        assert q in advertised.Keys + {s};
      }
    }
  }

  lemma WithdrawMirrors(parse: Parse, advertised: map<string, nat>, table: map<Network, Path>, nextHop: string,
                        nextHop6: string, s: string)
    requires Mirrors(parse, advertised, table, nextHop, nextHop6) && s in advertised
    ensures Mirrors(parse, advertised - {s}, table - {parse(s).value}, nextHop, nextHop6)
  {
    var a, t := advertised - {s}, table - {parse(s).value};
    forall n | n in t
      ensures exists q :: q in a && parse(q) == Some(n)
    {
      var q :| q in advertised && parse(q) == Some(n);
      assert q in a;
    }
  }

  /** Two spellings of one network, one replacing the other, leave the speaker wrong about its table. */
  lemma TwoSpellings(parse: Parse, was: map<string, nat>, advertised: map<string, nat>, table: map<Network, Path>,
                     nextHop: string, nextHop6: string)
    requires forall s | s in was && s !in advertised && parse(s).Some? :: parse(s).value !in table
    requires !Unambiguous(parse, was.Keys + advertised.Keys) && Unambiguous(parse, was.Keys)
    ensures !Mirrors(parse, advertised, table, nextHop, nextHop6)
  {
    var s, t :| s in was.Keys + advertised.Keys && t in was.Keys + advertised.Keys && s != t && parse(s).Some? &&
      parse(s) == parse(t);
    if Unambiguous(parse, advertised.Keys) {
      if s in advertised {
        assert t in was && t !in advertised;
      } else {
        assert t in advertised;
      }
    }
  }

  /** One network in two spellings, spoken first one way and then the other. */
  lemma SpellingMatters() returns (parse: Parse, was: map<string, nat>, table: map<Network, Path>, routes: seq<Route>)
    ensures Mirrors(parse, was, table, "192.0.2.1", "2001:db8::1")
    ensures Wanted(routes, "2001:db8::1").Keys != {}
    ensures !Unambiguous(parse, was.Keys + Wanted(routes, "2001:db8::1").Keys)
  {
    var lower, upper, n := "fd00::/64", "FD00::/64", Network(true, 0);
    parse := s => if s == lower || s == upper then Some(n) else None;
    was, table := map[lower := 1], map[n := Path(1, "2001:db8::1")];
    routes := [Route(upper, 1)];
    assert routes[..0] == [];
    assert lower[0] != upper[0];
    assert upper[0] != ' ' && upper[|upper| - 1] != ' ';
    assert Wanted(routes, "2001:db8::1") == map[upper := 1];
    assert lower in was && upper in Wanted(routes, "2001:db8::1");
  }

  lemma FewerSpellings(parse: Parse, all: set<string>, some: set<string>)
    requires Unambiguous(parse, all) && some <= all
    ensures Unambiguous(parse, some)
  {
  }

  /** Only networks spelled in `stale` have left the table, and no path has changed. */
  ghost predicate OnlyRemoved(parse: Parse, before: map<Network, Path>, after: map<Network, Path>, stale: set<string>) {
    && (forall n | n in after :: n in before && after[n] == before[n])
    && (forall n | n in before && n !in after :: exists s :: s in stale && parse(s) == Some(n))
  }

  ghost predicate Gone(parse: Parse, spellings: set<string>, table: map<Network, Path>) {
    forall s | s in spellings && parse(s).Some? :: parse(s).value !in table
  }

  lemma RemovedOne(parse: Parse, before: map<Network, Path>, table: map<Network, Path>, stale: set<string>, s: string)
    requires OnlyRemoved(parse, before, table, stale) && s in stale && parse(s).Some?
    ensures OnlyRemoved(parse, before, table - {parse(s).value}, stale)
  {
    var after := table - {parse(s).value};
    forall n | n in before && n !in after
      ensures exists q :: q in stale && parse(q) == Some(n)
    {
      if n == parse(s).value {
        assert s in stale && parse(s) == Some(n);
      }
    }
  }

  /** Route `i` is spoken, and is the last one with its spelling. */
  ghost predicate Decides(routes: seq<Route>, nextHop6: string, i: int) {
    && 0 <= i < |routes| && Spoken(Trim(routes[i].prefix), nextHop6)
    && forall j | i < j < |routes| :: Trim(routes[j].prefix) != Trim(routes[i].prefix)
  }

  lemma {:induction false} WantedIsDecided(routes: seq<Route>, nextHop6: string, s: string) returns (i: int)
    ensures s in Wanted(routes, nextHop6) ==>
              && Decides(routes, nextHop6, i) && Trim(routes[i].prefix) == s
              && Wanted(routes, nextHop6)[s] == routes[i].med
    ensures s !in Wanted(routes, nextHop6) ==>
              forall j | 0 <= j < |routes| :: Trim(routes[j].prefix) == s ==> !Spoken(s, nextHop6)
  {
    i := -1;
    if routes != [] {
      var front, last := routes[..|routes| - 1], routes[|routes| - 1];
      i := WantedIsDecided(front, nextHop6, s);
      assert forall j | 0 <= j < |front| :: routes[j] == front[j];
      if Trim(last.prefix) == s && Spoken(s, nextHop6) {
        i := |routes| - 1;
      }
    }
  }

  /**
   What an exact speaker has in its table for a route list: exactly the networks of the routes it
   speaks, each with the preference of the last route spelled so and this node's address of its
   family.
   */
  lemma TableIsSpoken(parse: Parse, table: map<Network, Path>, nextHop: string, nextHop6: string, routes: seq<Route>)
    requires Mirrors(parse, Wanted(routes, nextHop6), table, nextHop, nextHop6)
    ensures forall i | Decides(routes, nextHop6, i) ::
              var n := parse(Trim(routes[i].prefix));
              && n.Some? && n.value in table && table[n.value].med == routes[i].med
              && table[n.value].nextHop == if n.value.v6 then nextHop6 else nextHop
    ensures forall n | n in table ::
              exists i :: Decides(routes, nextHop6, i) && parse(Trim(routes[i].prefix)) == Some(n)
  {
    forall i | Decides(routes, nextHop6, i)
      ensures Trim(routes[i].prefix) in Wanted(routes, nextHop6)
      ensures Wanted(routes, nextHop6)[Trim(routes[i].prefix)] == routes[i].med
    {
      var j := WantedIsDecided(routes, nextHop6, Trim(routes[i].prefix));
      assert i == j;
    }
    forall n | n in table
      ensures exists i :: Decides(routes, nextHop6, i) && parse(Trim(routes[i].prefix)) == Some(n)
    {
      var s :| s in Wanted(routes, nextHop6) && parse(s) == Some(n);
      var i := WantedIsDecided(routes, nextHop6, s);
    }
  }

  /** With an address per spoken family, no path goes out without a next hop. */
  lemma EveryPathHasNextHop(parse: Parse, advertised: map<string, nat>, table: map<Network, Path>, nextHop: string,
                            nextHop6: string, routes: seq<Route>)
    requires Mirrors(parse, advertised, table, nextHop, nextHop6) && advertised == Wanted(routes, nextHop6)
    requires nextHop != ""
    requires forall s :: parse(s).Some? ==> (parse(s).value.v6 <==> ':' in s)
    ensures forall n | n in table :: table[n].nextHop == (if n.v6 then nextHop6 else nextHop) != ""
  {
    WantedIsSpoken(routes, nextHop6);
  }

  /** Every wanted prefix but those in `todo` is remembered as wanted, and none is forgotten. */
  ghost predicate AnnouncedTo(advertised: map<string, nat>, before: map<string, nat>, want: map<string, nat>,
                              todo: set<string>) {
    && (forall s | s in todo :: s in want)
    && (forall s | s in advertised :: s in before || s in want)
    && (forall s | s in before :: s in advertised)
    && (forall s | s in want && s !in todo :: s in advertised && advertised[s] == want[s])
  }

  lemma AnnouncedNext(advertised: map<string, nat>, before: map<string, nat>, want: map<string, nat>,
                      todo: set<string>, s: string)
    requires AnnouncedTo(advertised, before, want, todo + {s}) && s in want && s !in todo
    ensures AnnouncedTo(advertised[s := want[s]], before, want, todo)
  {
  }

  /** Every spelling is its network's own. */
  ghost predicate Canonical(parse: Parse, spell: Network -> string, spellings: set<string>) {
    forall s | s in spellings && parse(s).Some? :: spell(parse(s).value) == s
  }

  lemma WithdrawnAreGone(parse: Parse, spell: Network -> string, advertised: map<string, nat>,
                         table: map<Network, Path>, nextHop: string, nextHop6: string, prefixes: set<string>)
    requires Mirrors(parse, advertised, table, nextHop, nextHop6) && Canonical(parse, spell, advertised.Keys)
    requires advertised.Keys !! prefixes
    ensures forall n | n in table :: spell(n) !in prefixes
  {
    forall n | n in table
      ensures spell(n) !in prefixes
    {
      var s :| s in advertised && parse(s) == Some(n);
    }
  }

  class TransitSpeaker {
    const parse: Parse
    const spell: Network -> string
    const nextHop: string
    const nextHop6: string
    /** Site nodes this speaker talks to, and the server's own list. */
    var peers: set<string>
    var sessions: set<string>
    var advertised: map<string, nat>
    var table: map<Network, Path>
    /** How many calls the server has refused. */
    ghost var faults: nat

    ghost predicate Exact()
      reads this
    {
      Mirrors(parse, advertised, table, nextHop, nextHop6)
    }

    constructor (parse: Parse, spell: Network -> string, nextHop: string, nextHop6: string)
      ensures this.parse == parse && this.spell == spell && this.nextHop == nextHop && this.nextHop6 == nextHop6
      ensures advertised == map[] && table == map[] && peers == sessions == {} && Exact()
    {
      this.parse, this.spell, this.nextHop, this.nextHop6 := parse, spell, nextHop, nextHop6;
      peers, sessions, advertised, table := {}, {}, map[], map[];
      faults := 0;
    }

    /** One announcement; the server may refuse it, and then nothing changes. */
    method Announce(prefix: string, med: nat) returns (ok: bool)
      modifies this`table, this`faults
      ensures ok ==>
                parse(prefix).Some? &&
                table == old(table)[parse(prefix).value := PathFor(parse(prefix).value, med, nextHop, nextHop6)]
      ensures !ok ==> table == old(table)
      ensures if ok then faults == old(faults) else parse(prefix).Some? ==> faults > old(faults)
    {
      if parse(prefix).None? {
        return false;
      }
      ok := *;
      if ok {
        var n := parse(prefix).value;
        table := table[n := Path(med, if n.v6 then nextHop6 else nextHop)];
      } else {
        faults := faults + 1;
      }
    }

    method Unannounce(prefix: string) returns (ok: bool)
      modifies this`table, this`faults
      ensures ok ==> parse(prefix).Some? && table == old(table) - {parse(prefix).value}
      ensures !ok ==> table == old(table)
      ensures if ok then faults == old(faults) else parse(prefix).Some? ==> faults > old(faults)
    {
      if parse(prefix).None? {
        return false;
      }
      ok := *;
      if ok {
        table := table - {parse(prefix).value};
      } else {
        faults := faults + 1;
      }
    }

    method AddPeers(sitePeers: seq<string>) returns (ok: bool)
      modifies this`peers, this`sessions, this`faults
      ensures old(peers) == old(sessions) ==> peers == sessions
      ensures old(peers) <= peers
      ensures forall p | p in peers && p !in old(peers) :: p != "" && p != nextHop && p != nextHop6
      ensures ok ==> forall i | 0 <= i < |sitePeers| :: Trim(sitePeers[i]) in peers + {"", nextHop, nextHop6}
      ensures if ok then faults == old(faults) else faults > old(faults)
    {
      for k := 0 to |sitePeers|
        invariant old(peers) == old(sessions) ==> peers == sessions
        invariant old(peers) <= peers
        invariant forall p | p in peers && p !in old(peers) :: p != "" && p != nextHop && p != nextHop6
        invariant forall i | 0 <= i < k :: Trim(sitePeers[i]) in peers + {"", nextHop, nextHop6}
        invariant faults == old(faults)
      {
        var addr := Trim(sitePeers[k]);
        if addr == "" || addr == nextHop || addr == nextHop6 || addr in peers {
          continue;
        }
        ok := *;
        if !ok {
          faults := faults + 1;
          return;
        }
        sessions := sessions + {addr};
        peers := peers + {addr};
      }
      ok := true;
    }

    method CollectWanted(routes: seq<Route>) returns (want: map<string, nat>)
      ensures want == Wanted(routes, nextHop6)
    {
      want := map[];
      for k := 0 to |routes|
        invariant want == Wanted(routes[..k], nextHop6)
      {
        assert routes[..k + 1][..k] == routes[..k];
        var prefix := Trim(routes[k].prefix);
        if prefix == "" {
          continue;
        }
        if ':' in prefix && nextHop6 == "" {
          continue;
        }
        want := want[prefix := routes[k].med];
      }
      assert routes[..|routes|] == routes;
    }

    /** Speaks one prefix and remembers it. */
    method Speak(prefix: string, med: nat) returns (ok: bool)
      modifies this`advertised, this`table, this`faults
      ensures ok ==> advertised == old(advertised)[prefix := med]
      ensures !ok ==> advertised == old(advertised) && table == old(table)
      ensures old(Exact()) && Unambiguous(parse, old(advertised.Keys) + {prefix}) ==> Exact()
      ensures if ok then faults == old(faults) else parse(prefix).Some? ==> faults > old(faults)
    {
      ghost var a, t := advertised, table;
      ok := Announce(prefix, med);
      if ok {
        advertised := advertised[prefix := med];
        if Mirrors(parse, a, t, nextHop, nextHop6) && Unambiguous(parse, a.Keys + {prefix}) {
          AnnounceMirrors(parse, a, t, nextHop, nextHop6, prefix, med);
        }
      }
    }

    /** Speaks what is new or has changed preference. */
    method AnnounceAll(want: map<string, nat>) returns (ok: bool)
      modifies this`advertised, this`table, this`faults
      ensures old(Exact()) && Unambiguous(parse, old(advertised.Keys) + want.Keys) ==> Exact()
      ensures forall s :: s in advertised ==> s in old(advertised) || s in want
      ensures forall s :: s in old(advertised) ==> s in advertised
      ensures ok ==> forall s | s in want :: s in advertised && advertised[s] == want[s]
      ensures if ok then faults == old(faults) else (forall s | s in want :: parse(s).Some?) ==> faults > old(faults)
    {
      ghost var exact := Exact() && Unambiguous(parse, advertised.Keys + want.Keys);
      ghost var all := advertised.Keys + want.Keys;
      var todo := want.Keys;
      while todo != {}
        invariant faults == old(faults) && (exact ==> Exact())
        invariant AnnouncedTo(advertised, old(advertised), want, todo)
        decreases |todo|
      {
        var s :| s in todo;
        assert todo - {s} + {s} == todo;
        todo := todo - {s};
        if s in advertised && advertised[s] == want[s] {
          continue;
        }
        if exact {
          FewerSpellings(parse, all, advertised.Keys + {s});
        }
        AnnouncedNext(advertised, old(advertised), want, todo, s);
        ok := Speak(s, want[s]);
        if !ok {
          return;
        }
      }
      ok := true;
    }

    /** Withdraws one remembered prefix. */
    method Unspeak(prefix: string) returns (ok: bool)
      requires prefix in advertised
      modifies this`advertised, this`table, this`faults
      ensures ok ==>
                advertised == old(advertised) - {prefix} && parse(prefix).Some? &&
                table == old(table) - {parse(prefix).value}
      ensures !ok ==> advertised == old(advertised) && table == old(table)
      ensures old(Exact()) ==> Exact()
      ensures if ok then faults == old(faults) else parse(prefix).Some? ==> faults > old(faults)
    {
      if Mirrors(parse, advertised, table, nextHop, nextHop6) {
        WithdrawMirrors(parse, advertised, table, nextHop, nextHop6, prefix);
      }
      ok := Unannounce(prefix);
      if ok {
        advertised := advertised - {prefix};
      }
    }

    /** Withdraws the remembered spellings in `stale`. */
    method UnannounceAll(stale: set<string>) returns (ok: bool)
      modifies this`advertised, this`table, this`faults
      ensures old(Exact()) ==> Exact()
      ensures forall s :: s in advertised ==> s in old(advertised) && advertised[s] == old(advertised)[s]
      ensures forall s :: s in old(advertised) && s !in stale ==> s in advertised
      ensures OnlyRemoved(parse, old(table), table, stale)
      ensures ok ==> forall s | s in stale :: s !in advertised
      ensures ok ==> Gone(parse, old(advertised.Keys) * stale, table)
      ensures if ok then faults == old(faults)
                else (forall s | s in old(advertised) :: parse(s).Some?) ==> faults > old(faults)
    {
      ghost var was := advertised.Keys;
      var todo := stale * advertised.Keys;
      while todo != {}
        invariant forall s | s in todo :: s in stale && s in advertised
        invariant old(Exact()) ==> Exact()
        invariant forall s :: s in advertised ==> s in old(advertised) && advertised[s] == old(advertised)[s]
        invariant forall s :: s in old(advertised) && s !in stale ==> s in advertised
        invariant forall s :: s in advertised && s in stale ==> s in todo
        invariant OnlyRemoved(parse, old(table), table, stale)
        invariant Gone(parse, was * stale - todo, table)
        invariant faults == old(faults)
        decreases |todo|
      {
        var s :| s in todo;
        ghost var t := table;
        ok := Unspeak(s);
        if !ok {
          return;
        }
        RemovedOne(parse, old(table), t, stale, s);
        todo := todo - {s};
      }
      assert was * stale - {} == was * stale;
      ok := true;
    }

    /**
     Makes the advertisements match `routes`; `None` means nothing was observed, and never
     withdraws. The speaker stays exact, wherever it stops, when no network has two spellings
     among the old and the wanted prefixes; a complete pass is exact only then.
     */
    method Reconcile(sitePeers: seq<string>, routes: Option<seq<Route>>) returns (ok: bool)
      modifies this
      ensures old(peers) == old(sessions) ==> peers == sessions
      ensures routes.None? ==> advertised == old(advertised) && table == old(table)
      ensures routes.Some? && old(Exact()) ==>
                (Unambiguous(parse, old(advertised.Keys) + Wanted(routes.value, nextHop6).Keys) ==> Exact())
      ensures ok && routes.Some? ==> advertised == Wanted(routes.value, nextHop6)
      ensures ok && routes.Some? && old(Exact()) ==>
                (Exact() <==> Unambiguous(parse, old(advertised.Keys) + advertised.Keys))
      ensures (routes.Some? ==> forall s | s in Wanted(routes.value, nextHop6) :: parse(s).Some?) ==>
                (old(Exact()) && faults == old(faults) ==> ok)
    {
      ok := AddPeers(sitePeers);
      if !ok || routes.None? {
        return;
      }
      var want := CollectWanted(routes.value);
      ok := AnnounceAll(want);
      if !ok {
        return;
      }
      ghost var middle := advertised;
      var stale := advertised.Keys - want.Keys;
      ok := UnannounceAll(stale);
      if ok {
        assert forall s :: s in advertised <==> s in want;
        assert advertised == want;
        if old(Exact()) && !Unambiguous(parse, old(advertised.Keys) + want.Keys) {
          TwoSpellings(parse, old(advertised), advertised, table, nextHop, nextHop6);
        }
      }
    }

    /** Withdraws exactly `prefixes`; `valid` says which are canonical destinations. */
    method WithdrawPrefixes(prefixes: set<string>, valid: set<string>) returns (ok: bool)
      modifies this`advertised, this`table, this`faults
      ensures old(Exact()) ==> Exact()
      ensures !(prefixes <= valid) ==> !ok && advertised == old(advertised) && table == old(table)
      ensures forall s | s in old(advertised) && s !in prefixes ::
                s in advertised && advertised[s] == old(advertised)[s]
      ensures OnlyRemoved(parse, old(table), table, prefixes)
      ensures ok ==> advertised.Keys == old(advertised.Keys) - prefixes
      ensures ok ==> forall n | n in table :: spell(n) !in prefixes
      ensures old(Exact()) && prefixes <= valid && Canonical(parse, spell, old(advertised.Keys)) ==>
                (faults == old(faults) ==> ok)
    {
      if !(prefixes <= valid) {
        return false;
      }
      ok := UnannounceAll(prefixes);
      if !ok {
        return;
      }
      ok := forall n | n in table :: spell(n) !in prefixes;
      if Canonical(parse, spell, old(advertised.Keys)) && old(Exact()) {
        WithdrawnAreGone(parse, spell, advertised, table, nextHop, nextHop6, prefixes);
      }
    }
  }
}
