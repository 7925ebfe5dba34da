/**
 Whole histories of a worker's journal: where a rollback leads, when it may be requested,
 and what every retirement rests on.

 The results speak about the rounds a history committed and the events it was built from,
 so they do not depend on how a single event is replayed.
 */
module HandoverHistory {
  import opened Handover
  import opened Options

  /** The journal that a list of events builds, or None once one of them is refused. */
  function History(members: set<Node>, base: Generation, to: Generation, events: seq<Event>): Option<Journal> {
    if events == [] then Some(Journal([Round(Prepare, base, to)], FirstView(base, to)))
    else
      match History(members, base, to, events[..|events| - 1])
      case None => None
      case Some(j) => Extend(members, j, events[|events| - 1])
  }

  /** Whether the current transition, the one since the latest successor, was rolled back. */
  predicate RolledBack(events: seq<Event>) {
    events != [] &&
    var last := events[|events| - 1];
    last.Rollback? || (!last.Succeed? && RolledBack(events[..|events| - 1]))
  }

  /** Round `n` is the latest Prepare round, which opened the current transition. */
  ghost predicate Opens(rounds: seq<Round>, n: nat) {
    && n < |rounds| && rounds[n].phase == Prepare
    && forall i | n < i < |rounds| :: rounds[i].phase != Prepare
  }

  // ----- Direction -----

  /** The view runs between the two generations of the round that opened its transition. */
  ghost predicate Towards(v: View, start: Round, rolledBack: bool) {
    && v.rollbackRequested == rolledBack
    && (v.round.phase == Prepare ==> !rolledBack)
    && (v.round.phase == Abort ==> rolledBack)
    && (if rolledBack && v.round.phase != Abort then v.round.from == start.to && v.round.to == start.from
        else v.round.from == start.from && v.round.to == start.to)
    && (v.complete ==>
          && (v.round.phase == Retire || v.round.phase == Abort)
          && v.serving == if rolledBack then start.from else start.to)
  }

  lemma TowardsReplay(members: set<Node>, v: View, start: Round, rolledBack: bool, ev: Event)
    requires Towards(v, start, rolledBack) && Replay(members, v, ev).Some?
    ensures var w := Replay(members, v, ev).value;
            Towards(w, if ev.Succeed? then w.round else start, ev.Rollback? || (!ev.Succeed? && rolledBack))
  {
  }

  /** Only a successor opens a transition; a renewed Prepare round reopens the same one. */
  lemma PrepareReplay(members: set<Node>, v: View, ev: Event)
    requires Replay(members, v, ev).Some?
    ensures var w := Replay(members, v, ev).value;
            && (ev.Succeed? ==> w.round.phase == Prepare && CommitsRound(v, ev))
            && (!ev.Succeed? && w.round.phase == Prepare ==> v.round == w.round)
            && (!CommitsRound(v, ev) ==> w.round == v.round)
  {
  }

  ghost predicate Directed(j: Journal, n: nat, rolledBack: bool) {
    && |j.rounds| > 0 && j.rounds[|j.rounds| - 1] == j.view.round
    && Opens(j.rounds, n) && Towards(j.view, j.rounds[n], rolledBack)
  }

  lemma DirectedExtends(members: set<Node>, j: Journal, n: nat, rolledBack: bool, ev: Event) returns (m: nat)
    requires Directed(j, n, rolledBack) && Extend(members, j, ev).Some?
    ensures Directed(Extend(members, j, ev).value, m, ev.Rollback? || (!ev.Succeed? && rolledBack))
  {
    TowardsReplay(members, j.view, j.rounds[n], rolledBack, ev);
    PrepareReplay(members, j.view, ev);
    var k := Extend(members, j, ev).value;
    m := if CommitsRound(j.view, ev) && k.view.round.phase == Prepare then |j.rounds| else n;
    assert k.rounds[m] == if ev.Succeed? then k.view.round else j.rounds[n];
  }

  lemma {:induction false} HistoryIsDirected(members: set<Node>, base: Generation, to: Generation, events: seq<Event>)
    returns (n: nat)
    requires History(members, base, to, events).Some?
    ensures Directed(History(members, base, to, events).value, n, RolledBack(events))
  {
    if events == [] {
      n := 0;
    } else {
      var before, ev := events[..|events| - 1], events[|events| - 1];
      n := HistoryIsDirected(members, base, to, before);
      n := DirectedExtends(members, History(members, base, to, before).value, n, RolledBack(before), ev);
    }
  }

  lemma OpensOnce(rounds: seq<Round>, n: nat, m: nat)
    requires Opens(rounds, n) && Opens(rounds, m)
    ensures n == m
  {
    assert rounds[n].phase == rounds[m].phase == Prepare;
  }

  /**
   A rollback leads back. In every history, from the moment a rollback is committed until the
   next successor, every participant is told to forward with the generation that the opening
   Prepare round started from, and that generation is the one served at completion. Without a
   rollback the transition selects and ends with the generation it was opened for.
   */
  lemma RollbackRestores(members: set<Node>, base: Generation, to: Generation, events: seq<Event>) returns (n: nat)
    requires History(members, base, to, events).Some?
    ensures var j := History(members, base, to, events).value;
            && Opens(j.rounds, n) && (forall m | Opens(j.rounds, m) :: m == n)
            && var start := j.rounds[n];
               && (Selected(j.view) ==
                   if RolledBack(events) || j.view.round.phase == Prepare then start.from else start.to)
               && (j.view.complete ==> j.view.serving == if RolledBack(events) then start.from else start.to)
  {
    n := HistoryIsDirected(members, base, to, events);
    var rounds := History(members, base, to, events).value.rounds;
    forall m | Opens(rounds, m) ensures m == n {
      OpensOnce(rounds, n, m);
    }
  }

  /** A rollback is accepted exactly in Prepare, Switch and Drain, and once per transition. */
  lemma RollbackAcceptedIff(members: set<Node>, base: Generation, to: Generation, events: seq<Event>)
    requires History(members, base, to, events).Some?
    ensures var phase := History(members, base, to, events).value.view.round.phase;
            History(members, base, to, events + [Rollback]).Some? <==>
            !RolledBack(events) && (phase == Prepare || phase == Switch || phase == Drain)
  {
    var n := HistoryIsDirected(members, base, to, events);
    assert (events + [Rollback])[..|events|] == events;
  }

  /** Every committed round joins two different generations. */
  lemma {:induction false} RoundsMove(members: set<Node>, base: Generation, to: Generation, events: seq<Event>, i: nat)
    requires base != to && History(members, base, to, events).Some?
    requires i < |History(members, base, to, events).value.rounds|
    ensures History(members, base, to, events).value.rounds[i].from !=
            History(members, base, to, events).value.rounds[i].to
  {
    if events != [] {
      var before := events[..|events| - 1];
      var j := History(members, base, to, before).value;
      var n := HistoryIsDirected(members, base, to, before);
      RoundsMove(members, base, to, before, if i < |j.rounds| then i else |j.rounds| - 1);
    }
  }

  /** The nodes observed since the current round was committed or completed. */
  function ObservedSince(events: seq<Event>): set<Node> {
    if events == [] || !events[|events| - 1].Observe? then {}
    else ObservedSince(events[..|events| - 1]) + events[|events| - 1].seen
  }

  /**
   A view counts exactly the members observed in its own round, and a round accepts any
   observation of some members while it is unfinished.
   */
  lemma {:induction false} HistoryObserves(members: set<Node>, base: Generation, to: Generation, events: seq<Event>,
                                           seen: set<Node>)
    requires History(members, base, to, events).Some?
    ensures History(members, base, to, events).value.view.observed == ObservedSince(events) <= members
    ensures History(members, base, to, events + [Observe(seen)]).Some? <==>
              !History(members, base, to, events).value.view.complete && {} < seen <= members
  {
    assert (events + [Observe(seen)])[..|events|] == events;
    if events != [] {
      HistoryObserves(members, base, to, events[..|events| - 1], {});
    }
  }

  // ----- Completion -----

  function Remaining(p: Phase): nat {
    match p
    case Prepare => 4
    case Switch => 3
    case Drain => 2
    case Retire => 1
    case Abort => 1
  }

  /**
   No history is stuck: from every unfinished one, at most four unanimous receipts complete the
   transition, and past Prepare they complete it with the generation that is already selected.
   */
  lemma {:induction false} CanComplete(members: set<Node>, base: Generation, to: Generation, events: seq<Event>)
    returns (rest: seq<Event>)
    requires History(members, base, to, events).Some?
    ensures |rest| <= 4 && forall e | e in rest :: e == Advance(members)
    ensures History(members, base, to, events + rest).Some?
    ensures var j := History(members, base, to, events).value;
            var k := History(members, base, to, events + rest).value;
            && k.view.complete
            && (j.view.round.phase != Prepare || j.view.complete ==> k.view.serving == Selected(j.view))
    ensures var v := History(members, base, to, events).value.view;
            |rest| <= if v.complete then 0 else Remaining(v.round.phase)
    decreases var v := History(members, base, to, events).value.view;
              if v.complete then 0 else Remaining(v.round.phase)
  {
    var j := History(members, base, to, events).value;
    if j.view.complete {
      rest := [];
      assert events + [] == events;
    } else {
      var longer := events + [Advance(members)];
      assert longer[..|events|] == events;
      rest := CanComplete(members, base, to, longer);
      rest := [Advance(members)] + rest;
      assert events + rest == longer + rest[1..];
    }
  }

  // ----- Where a transition starts -----

  lemma {:induction false} HistoryIsCoherent(members: set<Node>, base: Generation, to: Generation, events: seq<Event>)
    requires History(members, base, to, events).Some?
    ensures Coherent(History(members, base, to, events).value, base)
  {
    if events == [] {
      assert [Round(Prepare, base, to)] == [] + [Round(Prepare, base, to)];
      LastSwitchAppend([], Round(Prepare, base, to));
    } else {
      var before := events[..|events| - 1];
      HistoryIsCoherent(members, base, to, before);
      CoherentExtends(members, History(members, base, to, before).value, base, events[|events| - 1]);
    }
  }

  /** A new Prepare round starts from the generation selected when it was committed. */
  lemma PrepareStartsFromSelected(members: set<Node>, j: Journal, ev: Event)
    requires Extend(members, j, ev).Some? && CommitsRound(j.view, ev)
    requires Extend(members, j, ev).value.view.round.phase == Prepare
    ensures Extend(members, j, ev).value.view.round.from == Selected(j.view)
  {
  }

  /**
   Every Prepare round, and so every rollback, starts from the target of the latest Switch
   round before it, or from the generation served at first.
   */
  lemma {:induction false} TransitionsChain(members: set<Node>, base: Generation, to: Generation, events: seq<Event>,
                                            i: nat)
    requires History(members, base, to, events).Some?
    requires var rounds := History(members, base, to, events).value.rounds; i < |rounds| && rounds[i].phase == Prepare
    ensures var rounds := History(members, base, to, events).value.rounds;
            rounds[i].from == Target(rounds[..i], base, LastSwitch(rounds[..i]))
  {
    if events != [] {
      var before, ev := events[..|events| - 1], events[|events| - 1];
      var j, k := History(members, base, to, before).value, History(members, base, to, events).value;
      if i < |j.rounds| {
        TransitionsChain(members, base, to, before, i);
        assert k.rounds[..i] == j.rounds[..i];
      } else {
        HistoryIsCoherent(members, base, to, before);
        PrepareStartsFromSelected(members, j, ev);
        assert k.rounds[..i] == j.rounds;
      }
    }
  }

  // ----- What a retirement rests on -----

  /** Round `s` is the latest Switch round, and runs in the direction of `r`. */
  ghost predicate SwitchedAt(rounds: seq<Round>, s: nat, r: Round) {
    && s < |rounds| && rounds[s] == r.(phase := Switch)
    && forall i | s < i < |rounds| :: rounds[i].phase != Switch
  }

  ghost predicate DrainedAt(rounds: seq<Round>, s: nat, d: nat, r: Round) {
    SwitchedAt(rounds, s, r) && s < d < |rounds| && rounds[d] == r.(phase := Drain)
  }

  /** The phase a round leads to is backed by the rounds of the phases before it. */
  ghost predicate Backed(rounds: seq<Round>, r: Round, s: nat, d: nat) {
    && (r.phase == Drain ==> SwitchedAt(rounds, s, r))
    && (r.phase == Retire ==> DrainedAt(rounds, s, d, r))
  }

  /** Advancing keeps the direction, and no phase is skipped. */
  lemma PhasesInOrder(members: set<Node>, v: View, ev: Event)
    requires Replay(members, v, ev).Some? && CommitsRound(v, ev)
    ensures var r := Replay(members, v, ev).value.round;
            && (r.phase == Drain ==> r == v.round || v.round == r.(phase := Switch))
            && (r.phase == Retire ==> r == v.round || v.round == r.(phase := Drain))
  {
  }

  lemma {:induction false} LastRoundIsBacked(members: set<Node>, base: Generation, to: Generation, events: seq<Event>)
    returns (s: nat, d: nat)
    requires History(members, base, to, events).Some?
    ensures var j := History(members, base, to, events).value;
            j.rounds != [] && j.rounds[|j.rounds| - 1] == j.view.round && Backed(j.rounds, j.view.round, s, d)
  {
    s, d := 0, 0;
    if events != [] {
      var before, ev := events[..|events| - 1], events[|events| - 1];
      s, d := LastRoundIsBacked(members, base, to, before);
      var j := History(members, base, to, before).value;
      PrepareReplay(members, j.view, ev);
      if CommitsRound(j.view, ev) {
        PhasesInOrder(members, j.view, ev);
        s, d := BackedAppend(j.rounds, j.view.round, Replay(members, j.view, ev).value.round, s, d);
      }
    }
  }

  lemma BackedAppend(rounds: seq<Round>, last: Round, r: Round, s: nat, d: nat) returns (s': nat, d': nat)
    requires rounds != [] && rounds[|rounds| - 1] == last && Backed(rounds, last, s, d)
    requires r.phase == Drain ==> r == last || last == r.(phase := Switch)
    requires r.phase == Retire ==> r == last || last == r.(phase := Drain)
    ensures Backed(rounds + [r], r, s', d')
    ensures r.phase == Retire ==> DrainedAt(rounds, s', d', r)
  {
    s' := if last.phase == Switch then |rounds| - 1 else s;
    d' := if last.phase == Drain then |rounds| - 1 else d;
  }

  /**
   No generation is retired early: in every history each Retire round, at any position, follows
   a Drain round of the same direction, which follows the Switch round of the same direction
   that was the latest one by then.
   */
  lemma {:induction false} RetirementIsDrained(members: set<Node>, base: Generation, to: Generation,
                                               events: seq<Event>, i: nat) returns (s: nat, d: nat)
    requires History(members, base, to, events).Some?
    requires var rounds := History(members, base, to, events).value.rounds; i < |rounds| && rounds[i].phase == Retire
    ensures var rounds := History(members, base, to, events).value.rounds;
            && s < d < i && rounds[s] == rounds[i].(phase := Switch) && rounds[d] == rounds[i].(phase := Drain)
            && forall k | s < k <= i :: rounds[k].phase != Switch
  {
    if events == [] {
      assert false;
    }
    var before, ev := events[..|events| - 1], events[|events| - 1];
    var j, k := History(members, base, to, before).value, History(members, base, to, events).value;
    if i < |j.rounds| {
      s, d := RetirementIsDrained(members, base, to, before, i);
      assert forall x | 0 <= x < |j.rounds| :: k.rounds[x] == j.rounds[x];
    } else {
      s, d := LastRoundIsBacked(members, base, to, before);
      PhasesInOrder(members, j.view, ev);
      s, d := BackedAppend(j.rounds, j.view.round, k.view.round, s, d);
    }
  }
}
