/**
 Relay-ordered switching between forwarding generations, for one destination worker.

 Site nodes move from one generation to another asynchronously. Each node admits the
 selected path under its host lock, applies it natively some time later, and reports the
 switch after verifying it. Between admission and application the controller may commit
 any number of further rounds, so an application can be late.

 A node that forwards through a relay may be admitted in an unfinished Switch only after
 the relay's own switch receipt for that round is committed. The main result is that the
 next hops of every reachable state end at a node that does not relay, without visiting
 any node twice.
 */
module RelayProtocol {
  import opened Handover
  import opened Options

  /** `Unplanned` is a journal without a committed path for the node; it forwards directly. */
  datatype Path = Unplanned | Direct | Via(relay: Node)

  /** The nodes of one site, the handover members among them, and the committed path graphs. */
  datatype Mesh = Mesh(nodes: set<Node>, members: set<Node>, graphs: map<Generation, map<Node, Path>>)

  /** A path together with the Switch round under which it was admitted. */
  datatype Hop = Hop(epoch: nat, path: Path)

  datatype State = State(
    journal: Journal,
    forwarding: map<Node, Hop>,
    pending: map<Node, Hop>,
    receipts: set<(nat, Node)>)

  datatype Step =
    | Admit(node: Node)
    | Apply(node: Node)
    | Abandon(node: Node)
    | Report(node: Node)
    | Restart(node: Node)
    | Commit(event: Event)

  /**
   What plan validation establishes for each generation: every node has a path, and a
   relay is a member whose own path in the same generation is direct.
   */
  ghost predicate ValidMesh(m: Mesh) {
    && m.members <= m.nodes
    && forall g | g in m.graphs :: ValidGraph(m, m.graphs[g])
  }

  ghost predicate ValidGraph(m: Mesh, graph: map<Node, Path>) {
    && graph.Keys == m.nodes
    && forall n {:trigger RelayIsDirect(m, graph, n)} | n in graph :: RelayIsDirect(m, graph, n)
  }

  ghost predicate RelayIsDirect(m: Mesh, graph: map<Node, Path>, n: Node)
    requires n in graph
  {
    graph[n].Via? ==> graph[n].relay in m.members && graph[n].relay in graph && graph[graph[n].relay] == Direct
  }

  ghost predicate Init(m: Mesh, base: Generation, s: State) {
    && base in m.graphs
    && (exists to ::
         to in m.graphs && to != base && s.journal == Journal([Round(Prepare, base, to)], FirstView(base, to)))
    && s.forwarding ==
         (map n | n in m.nodes :: if n in m.graphs[base] then Hop(0, m.graphs[base][n]) else Hop(0, Direct))
    && s.pending == map[]
    && s.receipts == (set n | n in m.nodes :: (0, n))
  }

  /**
   The ordering guard. Outside an unfinished Switch nothing is required; inside one, a
   relayed path needs a distinct relay with a committed direct path whose switch has been
   observed in this very round.
   */
  predicate Admissible(v: View, graph: map<Node, Path>, n: Node)
    requires n in graph
  {
    Switching(v) && graph[n].Via? ==>
      var relay := graph[n].relay;
      relay != n && relay in graph && graph[relay] == Direct && relay in v.observed
  }

  ghost predicate Next(m: Mesh, s: State, step: Step, t: State) {
    var j := s.journal;
    match step
    case Admit(n) =>
      var g := Selected(j.view);
      && n in m.nodes && n !in s.pending
      && g in m.graphs && n in m.graphs[g]
      && Admissible(j.view, m.graphs[g], n)
      && t == s.(pending := s.pending[n := Hop(LastSwitch(j.rounds), m.graphs[g][n])])
    case Apply(n) =>
      && n in s.pending
      && t == s.(forwarding := s.forwarding[n := s.pending[n]], pending := s.pending - {n})
    case Abandon(n) =>
      t == s.(pending := s.pending - {n})
    case Report(n) =>
      // Only a native switch admitted in the current round can be reported for it.
      && Switching(j.view) && n in m.members && n in s.forwarding && s.forwarding[n].epoch == |j.rounds|
      && t == s.(receipts := s.receipts + {(|j.rounds|, n)})
    case Restart(n) =>
      t == s.(forwarding := s.forwarding - {n}, pending := s.pending - {n})
    case Commit(ev) =>
      && (Switching(j.view) && ev.Observe? ==> forall n | n in ev.seen :: (|j.rounds|, n) in s.receipts)
      && (Switching(j.view) && ev.Advance? ==> forall n | n in ev.proofs :: (|j.rounds|, n) in s.receipts)
      && (ev.Succeed? ==> ev.next in m.graphs)
      && Extend(m.members, j, ev).Some?
      && t == s.(journal := Extend(m.members, j, ev).value)
  }

  /** A run: any interleaving of node steps, restarts and journal commits. */
  ghost predicate Run(m: Mesh, base: Generation, steps: seq<Step>, run: seq<State>) {
    && |run| == |steps| + 1
    && Init(m, base, run[0])
    && forall i | 0 <= i < |steps| :: Next(m, run[i], steps[i], run[i + 1])
  }

  // ----- Invariant -----

  /** The hop is the node's committed path in the generation its epoch selected. */
  ghost predicate Committed(m: Mesh, base: Generation, s: State, n: Node, hop: Hop) {
    && n in m.nodes
    && hop.epoch <= LastSwitch(s.journal.rounds)
    && Target(s.journal.rounds, base, hop.epoch) in m.graphs
    && n in m.graphs[Target(s.journal.rounds, base, hop.epoch)]
    && hop.path == m.graphs[Target(s.journal.rounds, base, hop.epoch)][n]
  }

  /** A relayed hop rests on the relay's own receipt for the same epoch. */
  ghost predicate Supported(s: State, hop: Hop) {
    hop.path.Via? ==> (hop.epoch, hop.path.relay) in s.receipts
  }

  ghost predicate HopsCommitted(m: Mesh, base: Generation, s: State, hops: map<Node, Hop>) {
    forall n | n in hops :: Committed(m, base, s, n, hops[n]) && Supported(s, hops[n])
  }

  /** Reported epochs are never undercut by what the reporter does later. */
  ghost predicate ReceiptsHold(s: State) {
    forall e, n | (e, n) in s.receipts ::
      && e <= LastSwitch(s.journal.rounds)
      && (n in s.forwarding ==> e <= s.forwarding[n].epoch)
      && (n in s.pending ==> e <= s.pending[n].epoch)
  }

  ghost predicate PendingIsLater(s: State) {
    forall n | n in s.pending && n in s.forwarding :: s.forwarding[n].epoch <= s.pending[n].epoch
  }

  /** Outside an unfinished Switch the latest Switch barrier is complete. */
  ghost predicate BarrierHolds(m: Mesh, s: State) {
    if Switching(s.journal.view) then
      forall n | n in s.journal.view.observed :: (|s.journal.rounds|, n) in s.receipts
    else
      forall n | n in m.members :: (LastSwitch(s.journal.rounds), n) in s.receipts
  }

  ghost predicate JournalPlanned(m: Mesh, j: Journal) {
    && j.view.round.from in m.graphs && j.view.round.to in m.graphs
    && forall i | 0 <= i < |j.rounds| :: j.rounds[i].to in m.graphs
  }

  ghost predicate Inv(m: Mesh, base: Generation, s: State) {
    && ValidMesh(m)
    && base in m.graphs
    && Coherent(s.journal, base)
    && JournalPlanned(m, s.journal)
    && HopsCommitted(m, base, s, s.forwarding)
    && HopsCommitted(m, base, s, s.pending)
    && ReceiptsHold(s)
    && PendingIsLater(s)
    && BarrierHolds(m, s)
  }

  lemma InitInv(m: Mesh, base: Generation, s: State)
    requires ValidMesh(m) && Init(m, base, s)
    ensures Inv(m, base, s)
  {
    var to :| to in m.graphs && to != base && s.journal == Journal([Round(Prepare, base, to)], FirstView(base, to));
    LastSwitchAppend([], Round(Prepare, base, to));
    assert [] + [Round(Prepare, base, to)] == [Round(Prepare, base, to)];
    assert ValidGraph(m, m.graphs[base]);
    forall n | n in s.forwarding
      ensures Committed(m, base, s, n, s.forwarding[n]) && Supported(s, s.forwarding[n])
    {
      assert RelayIsDirect(m, m.graphs[base], n);
    }
  }

  lemma AdmitInv(m: Mesh, base: Generation, s: State, n: Node, t: State)
    requires Inv(m, base, s) && Next(m, s, Admit(n), t)
    ensures Inv(m, base, t)
  {
    assert HopsCommitted(m, base, s, t.pending) by {
      AdmittedHop(m, base, s, n, t);
    }
    AdmittedInOrder(s, n, t);
    SameJournalInv(m, base, s, t);
  }

  /** What is admitted belongs to the latest epoch, so it undercuts nothing. */
  lemma AdmittedInOrder(s: State, n: Node, t: State)
    requires ReceiptsHold(s) && PendingIsLater(s)
    requires t == s.(pending := t.pending) && n in t.pending && t.pending == s.pending[n := t.pending[n]]
    requires t.pending[n].epoch == LastSwitch(s.journal.rounds)
    requires n in s.forwarding ==> s.forwarding[n].epoch <= LastSwitch(s.journal.rounds)
    ensures ReceiptsHold(t) && PendingIsLater(t)
  {
  }

  /** The guard and the barrier give an admitted path its relay's receipt. */
  lemma AdmittedHop(m: Mesh, base: Generation, s: State, n: Node, t: State)
    requires Inv(m, base, s) && Next(m, s, Admit(n), t)
    ensures Committed(m, base, s, n, t.pending[n]) && Supported(s, t.pending[n])
  {
    var g := Selected(s.journal.view);
    assert ValidGraph(m, m.graphs[g]) && RelayIsDirect(m, m.graphs[g], n);
  }

  /** Whether hops are committed depends only on the journal and the receipts. */
  lemma HopsKept(m: Mesh, base: Generation, s: State, t: State, hops: map<Node, Hop>)
    requires s.journal == t.journal && s.receipts == t.receipts
    ensures HopsCommitted(m, base, s, hops) <==> HopsCommitted(m, base, t, hops)
  {
    assert forall n | n in hops :: Committed(m, base, s, n, hops[n]) <==> Committed(m, base, t, n, hops[n]);
    assert forall n | n in hops :: Supported(s, hops[n]) <==> Supported(t, hops[n]);
  }

  lemma ApplyInv(m: Mesh, base: Generation, s: State, n: Node, t: State)
    requires Inv(m, base, s) && Next(m, s, Apply(n), t)
    ensures Inv(m, base, t)
  {
    assert HopsCommitted(m, base, s, t.forwarding) && HopsCommitted(m, base, s, t.pending) by {
      AppliedHops(m, base, s, n, t);
    }
    assert ReceiptsHold(t) && PendingIsLater(t) by {
      AppliedInOrder(s, n, t);
    }
    SameJournalInv(m, base, s, t);
  }

  lemma AppliedHops(m: Mesh, base: Generation, s: State, n: Node, t: State)
    requires HopsCommitted(m, base, s, s.forwarding) && HopsCommitted(m, base, s, s.pending) && n in s.pending
    requires t == s.(forwarding := s.forwarding[n := s.pending[n]], pending := s.pending - {n})
    ensures HopsCommitted(m, base, s, t.forwarding) && HopsCommitted(m, base, s, t.pending)
  {
    assert Committed(m, base, s, n, s.pending[n]) && Supported(s, s.pending[n]);
  }

  /** An application, however late, never undercuts what the node has reported. */
  lemma AppliedInOrder(s: State, n: Node, t: State)
    requires ReceiptsHold(s) && PendingIsLater(s) && n in s.pending
    requires t == s.(forwarding := s.forwarding[n := s.pending[n]], pending := s.pending - {n})
    ensures ReceiptsHold(t) && PendingIsLater(t)
  {
  }

  lemma SameJournalInv(m: Mesh, base: Generation, s: State, t: State)
    requires Inv(m, base, s) && t.journal == s.journal && t.receipts == s.receipts
    requires HopsCommitted(m, base, s, t.forwarding) && HopsCommitted(m, base, s, t.pending)
    requires ReceiptsHold(t) && PendingIsLater(t)
    ensures Inv(m, base, t)
  {
    HopsKept(m, base, s, t, t.forwarding);
    HopsKept(m, base, s, t, t.pending);
  }

  /** Rounds are only appended, so no later commit changes what an earlier epoch selected. */
  lemma HopsSurviveCommit(m: Mesh, base: Generation, s: State, t: State, hops: map<Node, Hop>)
    requires HopsCommitted(m, base, s, hops)
    requires s.journal.rounds <= t.journal.rounds && s.receipts == t.receipts
    requires LastSwitch(s.journal.rounds) <= LastSwitch(t.journal.rounds)
    ensures HopsCommitted(m, base, t, hops)
  {
    forall n | n in hops
      ensures Committed(m, base, t, n, hops[n]) && Supported(t, hops[n])
    {
      assert Committed(m, base, s, n, hops[n]);
      assert Target(t.journal.rounds, base, hops[n].epoch) == Target(s.journal.rounds, base, hops[n].epoch);
    }
  }

  lemma BarrierSurvivesCommit(m: Mesh, base: Generation, s: State, ev: Event, t: State)
    requires Coherent(s.journal, base) && BarrierHolds(m, s) && Next(m, s, Commit(ev), t)
    ensures BarrierHolds(m, t)
  {
    CoherentExtends(m.members, s.journal, base, ev);
    if Switching(s.journal.view) {
      assert LastSwitch(s.journal.rounds) == |s.journal.rounds|;
    }
  }

  lemma CommitInv(m: Mesh, base: Generation, s: State, ev: Event, t: State)
    requires Inv(m, base, s) && Next(m, s, Commit(ev), t)
    ensures Inv(m, base, t)
  {
    CoherentExtends(m.members, s.journal, base, ev);
    BarrierSurvivesCommit(m, base, s, ev, t);
    HopsSurviveCommit(m, base, s, t, s.forwarding);
    HopsSurviveCommit(m, base, s, t, s.pending);
    CommitPlanned(m, base, s, ev, t);
  }

  lemma CommitPlanned(m: Mesh, base: Generation, s: State, ev: Event, t: State)
    requires base in m.graphs && Coherent(s.journal, base) && JournalPlanned(m, s.journal) && Next(m, s, Commit(ev), t)
    ensures JournalPlanned(m, t.journal)
  {
  }

  lemma LocalStepInv(m: Mesh, base: Generation, s: State, step: Step, t: State)
    requires step.Abandon? || step.Restart? || step.Report?
    requires Inv(m, base, s) && Next(m, s, step, t)
    ensures Inv(m, base, t)
  {
    assert t.forwarding.Keys <= s.forwarding.Keys && t.pending.Keys <= s.pending.Keys;
    assert s.receipts <= t.receipts;
    forall n | n in t.forwarding
      ensures Committed(m, base, t, n, t.forwarding[n]) && Supported(t, t.forwarding[n])
    {
      assert Committed(m, base, s, n, s.forwarding[n]) && Supported(s, s.forwarding[n]);
    }
    forall n | n in t.pending
      ensures Committed(m, base, t, n, t.pending[n]) && Supported(t, t.pending[n])
    {
      assert Committed(m, base, s, n, s.pending[n]) && Supported(s, s.pending[n]);
    }
    assert BarrierHolds(m, t);
  }

  lemma StepInv(m: Mesh, base: Generation, s: State, step: Step, t: State)
    requires Inv(m, base, s) && Next(m, s, step, t)
    ensures Inv(m, base, t)
  {
    match step
    case Admit(n) => AdmitInv(m, base, s, n, t);
    case Apply(n) => ApplyInv(m, base, s, n, t);
    case Commit(ev) => CommitInv(m, base, s, ev, t);
    case _ => LocalStepInv(m, base, s, step, t);
  }

  lemma {:induction false} RunInv(m: Mesh, base: Generation, steps: seq<Step>, run: seq<State>, i: nat)
    requires ValidMesh(m) && Run(m, base, steps, run) && i < |run|
    ensures Inv(m, base, run[i])
  {
    if i == 0 {
      InitInv(m, base, run[0]);
    } else {
      RunInv(m, base, steps, run, i - 1);
      StepInv(m, base, run[i - 1], steps[i - 1], run[i]);
    }
  }

  // ----- Forwarding -----

  predicate Relays(s: State, n: Node) {
    n in s.forwarding && s.forwarding[n].path.Via?
  }

  /** The nodes a packet visits from `n`, cut off after `limit` hops. */
  function Visit(s: State, n: Node, limit: nat): seq<Node>
    ensures |Visit(s, n, limit)| >= 1 && Visit(s, n, limit)[0] == n
    ensures |Visit(s, n, limit)| <= limit + 1
    decreases limit
  {
    if limit == 0 || !Relays(s, n) then [n]
    else [n] + Visit(s, s.forwarding[n].path.relay, limit - 1)
  }

  predicate Distinct(path: seq<Node>) {
    forall i, j | 0 <= i < j < |path| :: path[i] != path[j]
  }

  /** A relay has moved on to a later epoch than its dependents, or forwards directly in theirs. */
  lemma RelayIsLater(m: Mesh, base: Generation, s: State, n: Node)
    requires Inv(m, base, s) && Relays(s, n)
    ensures var relay := s.forwarding[n].path.relay;
            Relays(s, relay) ==> s.forwarding[n].epoch < s.forwarding[relay].epoch
  {
    var hop := s.forwarding[n];
    var relay := hop.path.relay;
    assert Committed(m, base, s, n, hop) && Supported(s, hop);
    var graph := m.graphs[Target(s.journal.rounds, base, hop.epoch)];
    assert ValidGraph(m, graph) && RelayIsDirect(m, graph, n);
    if Relays(s, relay) {
      assert Committed(m, base, s, relay, s.forwarding[relay]);
    }
  }

  /** Epochs rise strictly along every walk, so it ends within the epochs that remain. */
  lemma {:induction false} WalkEnds(m: Mesh, base: Generation, s: State, n: Node, limit: nat)
    requires Inv(m, base, s)
    requires n in s.forwarding ==> LastSwitch(s.journal.rounds) <= s.forwarding[n].epoch + limit
    ensures var path := Visit(s, n, limit + 1);
            && Distinct(path)
            && !Relays(s, path[|path| - 1])
            && (Relays(s, n) ==>
                 forall i | 0 < i < |path| && Relays(s, path[i]) :: s.forwarding[n].epoch < s.forwarding[path[i]].epoch)
    decreases limit
  {
    if Relays(s, n) {
      var relay := s.forwarding[n].path.relay;
      RelayIsLater(m, base, s, n);
      var rest := Visit(s, relay, limit);
      var path := Visit(s, n, limit + 1);
      assert path == [n] + rest;
      if Relays(s, relay) {
        assert Committed(m, base, s, relay, s.forwarding[relay]);
        WalkEnds(m, base, s, relay, limit - 1);
      } else {
        assert rest == [relay];
      }
      assert forall i | 0 < i < |path| :: path[i] == rest[i - 1];
    }
  }

  /**
   No forwarding loop, ever. In every state of every run, the packets of every node visit
   distinct nodes and stop at one that does not relay.
   */
  lemma NoForwardingLoop(m: Mesh, base: Generation, steps: seq<Step>, run: seq<State>, i: nat, n: Node)
    requires ValidMesh(m) && Run(m, base, steps, run) && i < |run|
    ensures var s := run[i];
            var path := Visit(s, n, LastSwitch(s.journal.rounds) + 1);
            Distinct(path) && !Relays(s, path[|path| - 1])
  {
    assert Inv(m, base, run[i]) by { RunInv(m, base, steps, run, i); }
    WalkEnds(m, base, run[i], n, LastSwitch(run[i].journal.rounds));
  }

  /** The node has restarted and has not applied a path since. */
  ghost predicate Waiting(steps: seq<Step>, i: nat, n: Node)
    requires i <= |steps|
  {
    exists k :: 0 <= k < i && steps[k] == Restart(n) && forall l | k < l < i :: steps[l] != Apply(n)
  }

  /** Waiting begins with a restart, ends with an application and changes in no other way. */
  lemma WaitingStep(steps: seq<Step>, i: nat, n: Node)
    requires 0 < i <= |steps|
    ensures Waiting(steps, i, n) <==>
              steps[i - 1] == Restart(n) || (Waiting(steps, i - 1, n) && steps[i - 1] != Apply(n))
  {
    if Waiting(steps, i - 1, n) && steps[i - 1] != Apply(n) {
      var k :| 0 <= k < i - 1 && steps[k] == Restart(n) && forall l | k < l < i - 1 :: steps[l] != Apply(n);
      assert forall l | k < l < i :: steps[l] != Apply(n);
      assert Waiting(steps, i, n);
    }
    if Waiting(steps, i, n) && steps[i - 1] != Restart(n) {
      var k :| 0 <= k < i && steps[k] == Restart(n) && forall l | k < l < i :: steps[l] != Apply(n);
      assert k < i - 1 && steps[i - 1] != Apply(n);
      assert Waiting(steps, i - 1, n);
    }
  }

  /** A node of the mesh has no forwarding entry exactly while it waits after a restart. */
  lemma {:induction false} ForwardingLostIff(m: Mesh, base: Generation, steps: seq<Step>, run: seq<State>, i: nat,
                                             n: Node)
    requires ValidMesh(m) && Run(m, base, steps, run) && i < |run| && n in m.nodes
    ensures n !in run[i].forwarding <==> Waiting(steps, i, n)
  {
    if i > 0 {
      ForwardingLostIff(m, base, steps, run, i - 1, n);
      WaitingStep(steps, i, n);
      assert Next(m, run[i - 1], steps[i - 1], run[i]);
    }
  }

  lemma {:induction false} VisitStaysInMesh(m: Mesh, base: Generation, s: State, n: Node, limit: nat)
    requires Inv(m, base, s) && n in m.nodes
    ensures forall i | 0 <= i < |Visit(s, n, limit)| :: Visit(s, n, limit)[i] in m.nodes
    decreases limit
  {
    if limit > 0 && Relays(s, n) {
      assert Committed(m, base, s, n, s.forwarding[n]);
      var graph := m.graphs[Target(s.journal.rounds, base, s.forwarding[n].epoch)];
      assert ValidGraph(m, graph) && RelayIsDirect(m, graph, n);
      VisitStaysInMesh(m, base, s, s.forwarding[n].path.relay, limit - 1);
    }
  }

  predicate SendsDirectly(s: State, n: Node) {
    n in s.forwarding && !s.forwarding[n].path.Via?
  }

  /**
   In every state of every run a packet visits distinct nodes of the mesh and ends at one that
   sends it straight to the worker, or else at one that has restarted and not yet applied a path.
   */
  lemma EveryPacketReachesTheWorker(m: Mesh, base: Generation, steps: seq<Step>, run: seq<State>, i: nat, n: Node)
    requires ValidMesh(m) && Run(m, base, steps, run) && i < |run| && n in m.nodes
    ensures var s := run[i];
            var path := Visit(s, n, LastSwitch(s.journal.rounds) + 1);
            var last := path[|path| - 1];
            Distinct(path) && last in m.nodes && (SendsDirectly(s, last) <==> !Waiting(steps, i, last))
  {
    var s := run[i];
    var limit := LastSwitch(s.journal.rounds) + 1;
    var path := Visit(s, n, limit);
    assert Distinct(path) && !Relays(s, path[|path| - 1]) by { NoForwardingLoop(m, base, steps, run, i, n); }
    assert path[|path| - 1] in m.nodes by {
      RunInv(m, base, steps, run, i);
      VisitStaysInMesh(m, base, s, n, limit);
    }
    ForwardingLostIff(m, base, steps, run, i, path[|path| - 1]);
  }

  // ----- The guard is needed -----

  /**
   Two nodes trade the relay role. Once the Switch round is committed, the guard refuses
   the node that gives the role up; had it switched anyway, the two would forward to each
   other.
   */
  lemma GuardPreventsLoop() returns (m: Mesh, base: Generation, steps: seq<Step>, run: seq<State>, n: Node)
    ensures ValidMesh(m) && Run(m, base, steps, run) && |run| == 2 && n in m.nodes
    ensures Selected(run[1].journal.view) in m.graphs
    ensures var graph := m.graphs[Selected(run[1].journal.view)];
            && n in graph
            && !Admissible(run[1].journal.view, graph, n)
            && var t := run[1].(forwarding := run[1].forwarding[n := Hop(2, graph[n])]);
               !Distinct(Visit(t, n, 2))
  {
    var before := map["old" := Direct, "new" := Via("old")];
    var after := map["old" := Via("new"), "new" := Direct];
    m := Mesh({"old", "new"}, {"old", "new"}, map["a" := before, "b" := after]);
    var s0 := State(Journal([Round(Prepare, "a", "b")], FirstView("a", "b")),
                    map["old" := Hop(0, Direct), "new" := Hop(0, Via("old"))], map[], {(0, "old"), (0, "new")});
    var rounds := [Round(Prepare, "a", "b"), Round(Switch, "a", "b")];
    var s1 := s0.(journal := Journal(rounds, Fresh(Round(Switch, "a", "b"), false)));
    assert "old" != "new" by { assert "old"[0] != "new"[0]; }
    assert "a" != "b" by { assert "a"[0] != "b"[0]; }
    assert ValidMesh(m);
    assert Init(m, "a", s0) by {
      assert "b" in m.graphs && s0.journal == Journal([Round(Prepare, "a", "b")], FirstView("a", "b"));
    }
    assert Next(m, s0, Commit(Advance(m.members)), s1);
    base, steps, run, n := "a", [Commit(Advance(m.members))], [s0, s1], "old";
    assert Run(m, base, steps, run);
    var t := s1.(forwarding := s1.forwarding["old" := Hop(2, after["old"])]);
    assert Visit(t, "old", 0) == ["old"];
    assert Visit(t, "new", 1) == ["new"] + Visit(t, "old", 0);
    assert Visit(t, "old", 2) == ["old"] + Visit(t, "new", 1);
    assert Visit(t, "old", 2)[0] == Visit(t, "old", 2)[2];
    assert !Admissible(s1.journal.view, after, "old");
  }
}
