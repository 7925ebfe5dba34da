/**
 Moving the reverse-path floor off the global setting, so that one receiver can do without it.

 The kernel filters an interface by the larger of the global value and its own (strict and loose
 modes, sections 2.2 and 2.4 of RFC 3704). Other interfaces may be created while the move runs.
 The results are about every state it goes through.
 */
module ReversePath {

  datatype State = State(all: nat, fallback: nat, own: map<string, nat>)

  function Max(a: nat, b: nat): nat {
    if a < b then b else a
  }

  /** What the kernel applies to packets arriving on `name`. */
  function Effective(s: State, name: string): nat
    requires name in s.own
  {
    Max(s.all, s.own[name])
  }

  /** Interfaces other than the receiver keep their policy; new ones are at or above the old floor. */
  ghost predicate Safe(s: State, start: State, receiver: string) {
    && start.own.Keys <= s.own.Keys
    && (forall n | n in start.own && n != receiver :: Effective(s, n) == Effective(start, n))
    && (forall n | n in s.own && n != receiver :: Effective(s, n) >= start.all)
  }

  ghost predicate AllSafe(states: seq<State>, start: State, receiver: string) {
    forall i | 0 <= i < |states| :: Safe(states[i], start, receiver)
  }

  /** Every interface but the receiver, listed or created later, carries the floor itself. */
  ghost predicate Carried(s: State, floor: nat, receiver: string) {
    s.fallback >= floor && forall n | n in s.own && n != receiver :: s.own[n] >= floor
  }

  class Sysctls {
    var all: nat
    var fallback: nat
    var own: map<string, nat>
    /** Every state so far, the present one last. */
    ghost var trace: seq<State>
    /** How many settings could not be read or written. */
    ghost var faults: nat

    ghost function Now(): State
      reads this
    {
      State(all, fallback, own)
    }

    ghost predicate Valid()
      reads this
    {
      trace != [] && trace[|trace| - 1] == Now()
    }

    /** Every state since `n` is safe. */
    ghost predicate Kept(n: nat, start: State, receiver: string)
      reads this
    {
      Valid() && n <= |trace| && AllSafe(trace[n..], start, receiver) && Safe(Now(), start, receiver)
    }

    constructor (all: nat, fallback: nat, own: map<string, nat>)
      ensures this.all == all && this.fallback == fallback && this.own == own && Valid()
    {
      this.all, this.fallback, this.own := all, fallback, own;
      faults := 0;
      trace := [State(all, fallback, own)];
    }

    /** Someone creates interfaces; each starts from the fallback value. */
    method Create(names: set<string>, ghost n: nat, ghost start: State, ghost receiver: string)
      requires Kept(n, start, receiver) && names !! own.Keys && Max(all, fallback) >= start.all
      modifies this`own, this`trace
      ensures Kept(n, start, receiver) && old(trace) <= trace
      ensures forall name :: name in own <==> name in old(own) || name in names
      ensures forall name | name in own :: own[name] == if name in old(own) then old(own)[name] else fallback
    {
      own := own + map name | name in names :: fallback;
      trace := trace + [Now()];
    }

    /** Raises the fallback for interfaces not created yet. */
    method PreserveFallback(global: nat, ghost n: nat, ghost start: State, ghost receiver: string) returns (ok: bool)
      requires Kept(n, start, receiver)
      modifies this`fallback, this`trace, this`faults
      ensures (if ok then faults == old(faults) else faults > old(faults)) && Kept(n, start, receiver)
      ensures old(trace) <= trace
      ensures fallback == if ok then Max(global, old(fallback)) else old(fallback)
    {
      ok := *;
      if !ok || fallback > 2 {
        faults := faults + 1;
        return false;
      }
      fallback := Max(global, fallback);
      trace := trace + [Now()];
    }

    /** Gives one interface the policy it has now, as its own. */
    method Preserve(global: nat, name: string, ghost n: nat, ghost start: State, ghost receiver: string)
      returns (ok: bool)
      requires Kept(n, start, receiver) && all == global && name in own
      modifies this`own, this`trace, this`faults
      ensures (if ok then faults == old(faults) else faults > old(faults)) && Kept(n, start, receiver)
      ensures old(trace) <= trace
      ensures own == if ok then old(own)[name := Max(global, old(own)[name])] else old(own)
    {
      ok := *;
      if !ok || own[name] > 2 {
        faults := faults + 1;
        return false;
      }
      own := own[name := Max(global, own[name])];
      trace := trace + [Now()];
    }

    /** Preserves each listed interface; others keep appearing meanwhile. */
    method PreserveListed(global: nat, links: set<string>, ghost n: nat, ghost start: State, receiver: string)
      returns (ok: bool)
      requires Kept(n, start, receiver) && all == global == start.all && links == own.Keys && fallback >= global
      modifies this`own, this`trace, this`faults
      ensures if ok then faults == old(faults) else faults > old(faults)
      ensures Kept(n, start, receiver) && old(trace) <= trace && forall name | name in old(own) :: name in own
      ensures ok ==> Carried(Now(), global, receiver)
    {
      var todo := links - {receiver};
      while todo != {}
        invariant faults == old(faults) && Kept(n, start, receiver) && old(trace) <= trace && todo <= links
        invariant forall name | name in old(own) :: name in own
        invariant forall name | name in own && name != receiver && name !in todo :: own[name] >= global
        decreases |todo|
      {
        var name :| name in todo;
        ok := Preserve(global, name, n, start, receiver);
        if !ok {
          return;
        }
        todo := todo - {name};
        var created: set<string> := *;
        Create(created - own.Keys, n, start, receiver);
      }
      ok := true;
    }

    /**
     The whole move. Wherever it stops, no other interface's policy has changed and no interface
     created meanwhile is below the old floor; when it completes, only the receiver is unfiltered.
     */
    method Move(receiver: string) returns (ok: bool)
      requires Valid() && receiver in own
      modifies this
      ensures Valid() && old(trace) <= trace
      ensures AllSafe(trace[|old(trace)|..], old(Now()), receiver)
      ensures ok ==> all == 0 && own[receiver] == 0
      ensures ok ==> forall name | name in own && name != receiver :: own[name] >= old(all)
      ensures ok ==> fallback >= old(all)
      ensures old(all) > 2 ==> !ok && Now() == old(Now()) && trace == old(trace)
      ensures faults == old(faults) && old(all) <= 2 ==> ok
    {
      ghost var start, n := Now(), |trace|;
      var global := all;
      if global > 2 {
        return false;
      }
      var early: set<string> := *;
      Create(early - own.Keys, n, start, receiver);
      if global != 0 {
        ok := PreserveFallback(global, n, start, receiver);
        if !ok {
          return;
        }
        var created: set<string> := *;
        Create(created - own.Keys, n, start, receiver);
        ok := PreserveListed(global, own.Keys, n, start, receiver);
        if !ok {
          return;
        }
      }
      ok := DropFloor(receiver, n, start);
    }

    /** Frees the receiver, then removes the global floor. */
    method DropFloor(receiver: string, ghost n: nat, ghost start: State) returns (ok: bool)
      requires Kept(n, start, receiver) && receiver in own && all == start.all && Carried(Now(), all, receiver)
      modifies this`all, this`own, this`trace, this`faults
      ensures (if ok then faults == old(faults) else faults > old(faults)) && Valid() && old(trace) <= trace
      ensures n <= |trace| && AllSafe(trace[n..], start, receiver)
      ensures ok ==> all == 0 && receiver in own && own[receiver] == 0 && Carried(Now(), start.all, receiver)
    {
      ok := Free(receiver, n, start);
      if !ok {
        return;
      }
      var created: set<string> := *;
      Create(created - own.Keys, n, start, receiver);
      ok := DropGlobal(receiver, n, start);
    }

    method Free(receiver: string, ghost n: nat, ghost start: State) returns (ok: bool)
      requires Kept(n, start, receiver) && receiver in own
      modifies this`own, this`trace, this`faults
      ensures (if ok then faults == old(faults) else faults > old(faults)) && Kept(n, start, receiver)
      ensures old(trace) <= trace
      ensures own == if ok then old(own)[receiver := 0] else old(own)
    {
      ok := *;
      if ok {
        own := own[receiver := 0];
        trace := trace + [Now()];
      } else {
        faults := faults + 1;
      }
    }

    method DropGlobal(receiver: string, ghost n: nat, ghost start: State) returns (ok: bool)
      requires Kept(n, start, receiver) && all == start.all && Carried(Now(), all, receiver)
      modifies this`all, this`trace, this`faults
      ensures (if ok then faults == old(faults) else faults > old(faults)) && Kept(n, start, receiver)
      ensures old(trace) <= trace
      ensures all == if ok then 0 else old(all)
    {
      ok := *;
      if ok {
        all := 0;
        trace := trace + [Now()];
      } else {
        faults := faults + 1;
      }
    }
  }
}
