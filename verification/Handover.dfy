/**
 The committed handover journal: the phase graph a controller walks for one worker.

 A journal is a chain of transitions. Each transition moves every member from one
 forwarding generation to another through Prepare, Switch, Drain and Retire, may be
 rolled back once, and may be renewed after expiry. A completed transition can be
 followed by a successor that starts from the generation being served.

 Timestamps, nonces and the drain interval are not represented. They only refuse
 histories that this model accepts, so whatever holds of every history here also holds
 of every history the journal reader admits.
 */
module Handover {
  import opened Options

  type Node = string
  type Generation = string

  datatype Phase = Prepare | Switch | Drain | Retire | Abort

  datatype Round = Round(phase: Phase, from: Generation, to: Generation)

  datatype View = View(round: Round, observed: set<Node>, rollbackRequested: bool, complete: bool, serving: Generation)

  datatype Event =
    | Observe(seen: set<Node>)
    | Advance(proofs: set<Node>)
    | Rollback
    | Renew
    | Succeed(next: Generation)

  /** Every round ever committed for one worker, oldest first, and the view of the last. */
  datatype Journal = Journal(rounds: seq<Round>, view: View)

  function FirstView(from: Generation, to: Generation): View {
    View(Round(Prepare, from, to), {}, false, false, "")
  }

  function Fresh(round: Round, rollback: bool): View {
    View(round, {}, rollback, false, "")
  }

  /** What one committed event makes of the current view, or None when the replay refuses it. */
  function Replay(members: set<Node>, v: View, ev: Event): Option<View> {
    if v.complete then
      match ev
      case Succeed(next) => if next == v.serving then None else Some(FirstView(v.serving, next))
      case _ => None
    else
      match ev
      case Succeed(_) => None
      case Observe(seen) =>
        if seen == {} || !(seen <= members) then None else Some(v.(observed := v.observed + seen))
      case Advance(proofs) =>
        if proofs != members then None else
        (match v.round.phase
         case Prepare => Some(Fresh(v.round.(phase := Switch), v.rollbackRequested))
         case Switch => Some(Fresh(v.round.(phase := Drain), v.rollbackRequested))
         case Drain => Some(Fresh(v.round.(phase := Retire), v.rollbackRequested))
         case Retire => Some(v.(complete := true, serving := v.round.to, observed := {}))
         case Abort => Some(v.(complete := true, serving := v.round.from, observed := {})))
      case Rollback =>
        if v.rollbackRequested then None else
        (match v.round.phase
         case Prepare => Some(Fresh(v.round.(phase := Abort), true))
         case Switch => Some(Fresh(Round(Switch, v.round.to, v.round.from), true))
         case Drain => Some(Fresh(Round(Switch, v.round.to, v.round.from), true))
         case _ => None)
      case Renew => Some(Fresh(v.round, v.rollbackRequested))
  }

  /** Observations and terminal events keep the round; every other event commits a new one. */
  predicate CommitsRound(v: View, ev: Event) {
    !ev.Observe? && !(ev.Advance? && (v.round.phase == Retire || v.round.phase == Abort))
  }

  function Extend(members: set<Node>, j: Journal, ev: Event): Option<Journal> {
    match Replay(members, j.view, ev)
    case None => None
    case Some(v) => Some(Journal(if CommitsRound(j.view, ev) then j.rounds + [v.round] else j.rounds, v))
  }

  /** The generation every participant is told to forward with. */
  function Selected(v: View): Generation {
    if v.complete then v.serving
    else if v.round.phase == Prepare || v.round.phase == Abort then v.round.from
    else v.round.to
  }

  predicate Switching(v: View) {
    !v.complete && v.round.phase == Switch
  }

  /** One more than the position of the latest Switch round, or 0 before the first one. */
  function LastSwitch(rounds: seq<Round>): nat
    ensures LastSwitch(rounds) <= |rounds|
  {
    if rounds == [] then 0
    else if rounds[|rounds| - 1].phase == Switch then |rounds|
    else LastSwitch(rounds[..|rounds| - 1])
  }

  /** The generation that Switch epoch `epoch` selects; epoch 0 is the generation served at first. */
  function Target(rounds: seq<Round>, base: Generation, epoch: nat): Generation
    requires epoch <= |rounds|
  {
    if epoch == 0 then base else rounds[epoch - 1].to
  }

  lemma LastSwitchAppend(rounds: seq<Round>, r: Round)
    ensures LastSwitch(rounds + [r]) == if r.phase == Switch then |rounds| + 1 else LastSwitch(rounds)
  {
    assert (rounds + [r])[..|rounds|] == rounds;
  }

  /**
   The phase graph never leaves a Switch round for a non-Switch round except by completing
   it, so outside an unfinished Switch the selected generation is the latest Switch target.
   */
  ghost predicate Coherent(j: Journal, base: Generation) {
    && j.rounds != []
    && j.rounds[|j.rounds| - 1] == j.view.round
    && (j.view.complete ==> j.view.round.phase == Retire || j.view.round.phase == Abort)
    && Selected(j.view) == Target(j.rounds, base, LastSwitch(j.rounds))
  }

  lemma CoherentExtends(members: set<Node>, j: Journal, base: Generation, ev: Event)
    requires Coherent(j, base)
    requires Extend(members, j, ev).Some?
    ensures Coherent(Extend(members, j, ev).value, base)
    ensures LastSwitch(j.rounds) <= LastSwitch(Extend(members, j, ev).value.rounds)
    ensures j.rounds <= Extend(members, j, ev).value.rounds
    ensures var k := Extend(members, j, ev).value;
            CommitsRound(j.view, ev) && k.view.round.phase != Switch ==> LastSwitch(k.rounds) == LastSwitch(j.rounds)
    ensures var k := Extend(members, j, ev).value;
            CommitsRound(j.view, ev) && k.view.round.phase == Switch ==>
              LastSwitch(k.rounds) == |k.rounds| == |j.rounds| + 1
  {
    var k := Extend(members, j, ev).value;
    if CommitsRound(j.view, ev) {
      LastSwitchAppend(j.rounds, k.view.round);
      CommittedIsCoherent(members, j, base, ev);
    }
  }

  /** The generation a new round selects is the latest Switch target. */
  lemma CommittedIsCoherent(members: set<Node>, j: Journal, base: Generation, ev: Event)
    requires Coherent(j, base) && Extend(members, j, ev).Some? && CommitsRound(j.view, ev)
    ensures Coherent(Extend(members, j, ev).value, base)
  {
    var k := Extend(members, j, ev).value;
    LastSwitchAppend(j.rounds, k.view.round);
    if k.view.round.phase == Switch {
      assert Selected(k.view) == k.view.round.to == Target(k.rounds, base, |k.rounds|);
    } else {
      assert Selected(k.view) == Selected(j.view);
      assert Target(k.rounds, base, LastSwitch(j.rounds)) == Target(j.rounds, base, LastSwitch(j.rounds));
    }
  }
}
