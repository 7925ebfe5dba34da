/**
 The inventory checkpoint: which machines hold a receiver reservation, what each has published,
 and which reservations were released.

 A new checkpoint is compared with the saved one before it replaces it. The results here are
 about every chain of accepted checkpoints: what was fenced once stays fenced as it was.
 */
module Inventory {
  import opened Order

  type Uid = string

  /** Evidence is opaque; the empty string stands for absent evidence. */
  datatype Publication = Publication(journal: string, plan: string, retirement: string, completion: string,
                                     finalization: string)

  datatype Inventory = Inventory(identity: string, machines: seq<Uid>, publications: map<Uid, Publication>,
                                 released: map<Uid, Publication>)

  const Absent := Publication("", "", "", "", "")

  function Get(m: map<Uid, Publication>, uid: Uid): Publication {
    if uid in m then m[uid] else Absent
  }

  predicate SameReleasedFence(previous: Publication, released: Publication) {
    && previous.journal != "" && previous.journal == released.journal && previous.plan == ""
    && previous.retirement != "" && previous.retirement == released.retirement
    && (previous.finalization == "" ||
         (previous.finalization == released.finalization && previous.completion == released.completion))
  }

  /** A released record is complete, and is neither active before nor after. */
  predicate ReleasedKept(a: Inventory, b: Inventory, uid: Uid)
    requires uid in a.released
  {
    var r := a.released[uid];
    && uid != "" && r.journal != "" && r.plan == "" && r.retirement != "" && r.completion != "" && r.finalization != ""
    && uid !in a.publications && uid !in a.machines
    && uid in b.released && b.released[uid] == r
    && uid !in b.publications && uid !in b.machines
  }

  predicate Released(a: Inventory, b: Inventory, admitted: set<Uid>, uid: Uid) {
    uid in admitted && SameReleasedFence(Get(a.publications, uid), Get(b.released, uid))
  }

  /** `q` still holds every fence `p` had. */
  predicate Continues(p: Publication, q: Publication) {
    && (p.journal != "" ==> q.journal == p.journal)
    && (p.retirement != "" ==> q.retirement == p.retirement)
    && (p.finalization != "" ==> q.finalization == p.finalization && q.completion == p.completion)
  }

  predicate PublicationKept(a: Inventory, b: Inventory, admitted: set<Uid>, uid: Uid)
    requires uid in a.publications
  {
    Released(a, b, admitted, uid) || Continues(a.publications[uid], Get(b.publications, uid))
  }

  predicate MachineKept(a: Inventory, b: Inventory, admitted: set<Uid>, i: nat)
    requires i < |a.machines|
  {
    && a.machines[i] != "" && (i > 0 ==> Less(a.machines[i - 1], a.machines[i]))
    && (a.machines[i] in b.machines || Released(a, b, admitted, a.machines[i]))
  }

  predicate Accepts(a: Inventory, b: Inventory, admitted: set<Uid>) {
    && a.identity == b.identity
    && (forall uid | uid in a.released :: ReleasedKept(a, b, uid))
    && (forall uid | uid in a.publications :: PublicationKept(a, b, admitted, uid))
    && (forall i | 0 <= i < |a.machines| :: MachineKept(a, b, admitted, i))
  }

  method CheckReleased(a: Inventory, b: Inventory) returns (ok: bool)
    ensures ok <==> forall uid | uid in a.released :: ReleasedKept(a, b, uid)
  {
    var todo := a.released.Keys;
    while todo != {}
      invariant todo <= a.released.Keys
      invariant forall uid | uid in a.released && uid !in todo :: ReleasedKept(a, b, uid)
      decreases |todo|
    {
      var uid :| uid in todo;
      if !ReleasedKept(a, b, uid) {
        return false;
      }
      todo := todo - {uid};
    }
    return true;
  }

  method CheckPublications(a: Inventory, b: Inventory, admitted: set<Uid>) returns (ok: bool)
    ensures ok <==> forall uid | uid in a.publications :: PublicationKept(a, b, admitted, uid)
  {
    var todo := a.publications.Keys;
    while todo != {}
      invariant todo <= a.publications.Keys
      invariant forall uid | uid in a.publications && uid !in todo :: PublicationKept(a, b, admitted, uid)
      decreases |todo|
    {
      var uid :| uid in todo;
      todo := todo - {uid};
      var p, q := a.publications[uid], Get(b.publications, uid);
      if uid in admitted && SameReleasedFence(p, Get(b.released, uid)) {
        continue;
      }
      if p.journal != "" && q.journal != p.journal {
        return false;
      }
      if p.retirement != "" && p.retirement != q.retirement {
        return false;
      }
      if p.finalization != "" && (p.finalization != q.finalization || p.completion != q.completion) {
        return false;
      }
    }
    return true;
  }

  method CheckMachines(a: Inventory, b: Inventory, admitted: set<Uid>) returns (ok: bool)
    ensures ok <==> forall i | 0 <= i < |a.machines| :: MachineKept(a, b, admitted, i)
  {
    var previous := "";
    for i := 0 to |a.machines|
      invariant previous == if i == 0 then "" else a.machines[i - 1]
      invariant forall j | 0 <= j < i :: MachineKept(a, b, admitted, j)
    {
      var uid := a.machines[i];
      if uid == "" || !Less(previous, uid) || (uid !in b.machines && !Released(a, b, admitted, uid)) {
        assert !MachineKept(a, b, admitted, i);
        return false;
      }
      previous := uid;
    }
    return true;
  }

  /** Whether `next` may replace `saved`; `admitted` names the releases the caller has proved. */
  method ValidateCheckpoint(saved: Inventory, next: Inventory, admitted: set<Uid>) returns (ok: bool)
    ensures ok <==> Accepts(saved, next, admitted)
  {
    if saved.identity != next.identity {
      return false;
    }
    ok := CheckReleased(saved, next);
    if !ok {
      return;
    }
    ok := CheckPublications(saved, next, admitted);
    if !ok {
      return;
    }
    ok := CheckMachines(saved, next, admitted);
  }

  // ----- What reading an inventory validates -----

  /** Either a plan or a journal, and each kind of evidence only after the one before it. */
  predicate ValidPublication(p: Publication) {
    && (p.plan == "" <==> p.journal != "")
    && (p.completion != "" ==> p.retirement != "")
    && (p.finalization != "" ==> p.completion != "")
    && (p.retirement != "" ==> p.journal != "")
  }

  predicate ValidRelease(p: Publication) {
    p.journal != "" && p.plan == "" && p.retirement != "" && p.completion != "" && p.finalization != ""
  }

  predicate Sorted(machines: seq<Uid>) {
    forall i | 0 <= i < |machines| :: machines[i] != "" && (i > 0 ==> Less(machines[i - 1], machines[i]))
  }

  predicate ActivePublication(v: Inventory, uid: Uid) {
    uid in v.publications ==> uid in v.machines && ValidPublication(v.publications[uid])
  }

  predicate InactiveRelease(v: Inventory, uid: Uid) {
    uid in v.released ==> uid != "" && uid !in v.machines && uid !in v.publications && ValidRelease(v.released[uid])
  }

  /** Publications belong to active machines; released machines are not active. */
  predicate ValidInventory(v: Inventory) {
    && v.identity != "" && Sorted(v.machines)
    && (forall uid | uid in v.publications :: ActivePublication(v, uid))
    && (forall uid | uid in v.released :: InactiveRelease(v, uid))
  }

  method CheckSorted(machines: seq<Uid>) returns (ok: bool)
    ensures ok <==> Sorted(machines)
  {
    var previous := "";
    for i := 0 to |machines|
      invariant previous == if i == 0 then "" else machines[i - 1]
      invariant Sorted(machines[..i])
    {
      if machines[i] == "" || !Less(previous, machines[i]) {
        return false;
      }
      previous := machines[i];
    }
    assert machines[..|machines|] == machines;
    return true;
  }

  method CheckActive(v: Inventory) returns (ok: bool)
    ensures ok <==> forall uid | uid in v.publications :: ActivePublication(v, uid)
  {
    var todo := v.publications.Keys;
    while todo != {}
      invariant todo <= v.publications.Keys
      invariant forall uid | uid in v.publications && uid !in todo :: ActivePublication(v, uid)
      decreases |todo|
    {
      var uid :| uid in todo;
      if !ActivePublication(v, uid) {
        return false;
      }
      todo := todo - {uid};
    }
    return true;
  }

  method CheckInactive(v: Inventory) returns (ok: bool)
    ensures ok <==> forall uid | uid in v.released :: InactiveRelease(v, uid)
  {
    var todo := v.released.Keys;
    while todo != {}
      invariant todo <= v.released.Keys
      invariant forall uid | uid in v.released && uid !in todo :: InactiveRelease(v, uid)
      decreases |todo|
    {
      var uid :| uid in todo;
      if !InactiveRelease(v, uid) {
        return false;
      }
      todo := todo - {uid};
    }
    return true;
  }

  method Validate(v: Inventory) returns (ok: bool)
    ensures ok <==> ValidInventory(v)
  {
    if v.identity == "" {
      return false;
    }
    ok := CheckSorted(v.machines);
    if !ok {
      return;
    }
    ok := CheckActive(v);
    if !ok {
      return;
    }
    ok := CheckInactive(v);
  }

  // ----- What the checks mean -----

  /** Every machine has a name, and the list is in strictly increasing order, so none is listed twice. */
  ghost predicate Ordered(machines: seq<Uid>) {
    && (forall i | 0 <= i < |machines| :: machines[i] != "")
    && (forall i, j | 0 <= i < j < |machines| :: Less(machines[i], machines[j]))
  }

  lemma {:induction false} SortedIsOrdered(machines: seq<Uid>, i: nat, j: nat)
    requires Sorted(machines) && i < j < |machines|
    ensures Less(machines[i], machines[j])
  {
    assert Less(machines[j - 1], machines[j]);
    if i < j - 1 {
      SortedIsOrdered(machines, i, j - 1);
      LessIsTransitive(machines[i], machines[j - 1], machines[j]);
    }
  }

  /** How far the evidence for a machine has come. */
  datatype Stage = Planned | Published | Retiring | Completed | Finalized

  /** The publication has exactly the evidence of its stage. */
  ghost predicate At(p: Publication, stage: Stage) {
    && (p.plan != "" <==> stage == Planned)
    && (p.journal != "" <==> stage != Planned)
    && (p.retirement != "" <==> stage == Retiring || stage == Completed || stage == Finalized)
    && (p.completion != "" <==> stage == Completed || stage == Finalized)
    && (p.finalization != "" <==> stage == Finalized)
  }

  ghost predicate Staged(p: Publication) {
    exists stage :: At(p, stage)
  }

  lemma StagedIff(p: Publication)
    ensures ValidPublication(p) <==> Staged(p)
    ensures ValidRelease(p) <==> At(p, Finalized)
  {
    if ValidPublication(p) {
      var stage :=
        if p.journal == "" then Planned
        else if p.retirement == "" then Published
        else if p.completion == "" then Retiring
        else if p.finalization == "" then Completed
        else Finalized;
      assert At(p, stage);
    }
  }

  /**
   An inventory is valid exactly when its machines are named and strictly ordered, every
   publication of an active machine is at one of five stages, and every release is at the last
   stage, of a named machine that is neither active nor published.
   */
  lemma ValidInventoryIff(v: Inventory)
    ensures ValidInventory(v) <==>
            && v.identity != "" && Ordered(v.machines)
            && (forall uid | uid in v.publications :: uid in v.machines && Staged(v.publications[uid]))
            && v.released.Keys !! v.publications.Keys + {""}
            && (forall uid | uid in v.released :: uid !in v.machines && At(v.released[uid], Finalized))
  {
    forall uid | uid in v.publications
      ensures ValidPublication(v.publications[uid]) <==> Staged(v.publications[uid])
    {
      StagedIff(v.publications[uid]);
    }
    forall uid | uid in v.released
      ensures ValidRelease(v.released[uid]) <==> At(v.released[uid], Finalized)
    {
      StagedIff(v.released[uid]);
    }
    if Sorted(v.machines) {
      forall i, j | 0 <= i < j < |v.machines|
        ensures Less(v.machines[i], v.machines[j])
      {
        SortedIsOrdered(v.machines, i, j);
      }
    }
    assert Sorted(v.machines) <==> Ordered(v.machines);
    assert v.released.Keys !! v.publications.Keys + {""} <==>
           forall uid | uid in v.released :: uid !in v.publications && uid != "";
  }

  /** The release of this machine was admitted and carries its fence. */
  ghost predicate LetGo(a: Inventory, b: Inventory, admitted: set<Uid>, uid: Uid) {
    && uid in admitted && uid in a.publications && uid in b.released
    && HandsOver(a.publications[uid], b.released[uid])
  }

  /**
   Between valid inventories a checkpoint is replaced exactly when the identity is the same, no
   release changes, and every machine and every journal fence stays unless its own release was
   admitted.
   */
  lemma AcceptsIff(a: Inventory, b: Inventory, admitted: set<Uid>)
    requires ValidInventory(a) && ValidInventory(b)
    ensures Accepts(a, b, admitted) <==>
            && a.identity == b.identity
            && (forall uid | uid in a.released :: uid in b.released && b.released[uid] == a.released[uid])
            && (forall uid | uid in a.machines :: uid in b.machines || LetGo(a, b, admitted, uid))
            && (forall uid | uid in a.publications && a.publications[uid].journal != "" ::
                  || (uid in b.publications && Fenced(a.publications[uid], b.publications[uid]))
                  || LetGo(a, b, admitted, uid))
  {
    forall uid
      ensures Released(a, b, admitted, uid) <==> LetGo(a, b, admitted, uid)
    {
    }
    forall uid | uid in a.released
      ensures ReleasedKept(a, b, uid) <==> uid in b.released && b.released[uid] == a.released[uid]
    {
      assert InactiveRelease(a, uid) && InactiveRelease(b, uid);
    }
    forall uid | uid in a.publications
      ensures PublicationKept(a, b, admitted, uid) <==>
              || a.publications[uid].journal == ""
              || (uid in b.publications && Fenced(a.publications[uid], b.publications[uid]))
              || LetGo(a, b, admitted, uid)
    {
      assert ActivePublication(a, uid);
    }
    forall i | 0 <= i < |a.machines|
      ensures MachineKept(a, b, admitted, i) <==> a.machines[i] in b.machines || LetGo(a, b, admitted, a.machines[i])
    {
    }
    if forall uid | uid in a.machines :: uid in b.machines || LetGo(a, b, admitted, uid) {
      forall i | 0 <= i < |a.machines|
        ensures MachineKept(a, b, admitted, i)
      {
        assert a.machines[i] in a.machines;
      }
    }
  }

  /** A malformed saved file is never replaced: its machines are in order, its releases complete and inactive. */
  lemma AcceptsOnlyWellFormed(a: Inventory, b: Inventory, admitted: set<Uid>)
    requires Accepts(a, b, admitted)
    ensures Ordered(a.machines)
    ensures forall uid | uid in a.released ::
              uid != "" && uid !in a.machines && uid !in a.publications && At(a.released[uid], Finalized)
  {
    forall i | 0 <= i < |a.machines|
      ensures a.machines[i] != "" && (i > 0 ==> Less(a.machines[i - 1], a.machines[i]))
    {
      assert MachineKept(a, b, admitted, i);
    }
    forall i, j | 0 <= i < j < |a.machines|
      ensures Less(a.machines[i], a.machines[j])
    {
      SortedIsOrdered(a.machines, i, j);
    }
    forall uid | uid in a.released
      ensures uid != "" && uid !in a.machines && uid !in a.publications && At(a.released[uid], Finalized)
    {
      assert ReleasedKept(a, b, uid);
    }
  }

  // ----- Chains of accepted checkpoints -----

  /** Every checkpoint was read, and each was accepted after the one before it. */
  ghost predicate Chain(saved: seq<Inventory>, admitted: seq<set<Uid>>) {
    && |admitted| + 1 == |saved|
    && (forall i | 0 <= i < |saved| :: ValidInventory(saved[i]))
    && (forall i | 0 <= i < |admitted| :: Accepts(saved[i], saved[i + 1], admitted[i]))
  }

  /** The same incarnation; the same intent, once there is one; and the same evidence, once finalized. */
  ghost predicate Fenced(p: Publication, q: Publication) {
    && q.journal == p.journal
    && (q.retirement == p.retirement || p.retirement == "")
    && ((q.finalization == p.finalization && q.completion == p.completion) || p.finalization == "")
  }

  /** The fences of `p` are in the active publication, or in the release, and not in both. */
  ghost predicate FencedOnce(v: Inventory, uid: Uid, p: Publication) {
    || (uid in v.publications && Fenced(p, v.publications[uid]) && uid in v.machines && uid !in v.released)
    || (uid in v.released && Fenced(p, v.released[uid]) && uid !in v.publications && uid !in v.machines)
  }

  lemma FencedStep(a: Inventory, b: Inventory, admitted: set<Uid>, uid: Uid, p: Publication)
    requires ValidInventory(a) && ValidInventory(b) && Accepts(a, b, admitted) && p.journal != ""
    requires FencedOnce(a, uid, p)
    ensures FencedOnce(b, uid, p)
  {
    if uid in a.released {
      assert ReleasedKept(a, b, uid);
    } else {
      assert PublicationKept(a, b, admitted, uid);
    }
  }

  /**
   Over any chain, a published journal's incarnation never changes, a retirement intent never
   changes or disappears, a finalization freezes its evidence, and the record of all this is in
   exactly one of the active publications and the releases.
   */
  lemma {:induction false} FencesAreForever(saved: seq<Inventory>, admitted: seq<set<Uid>>, i: nat, j: nat, uid: Uid)
    requires Chain(saved, admitted) && i <= j < |saved|
    requires uid in saved[i].publications && saved[i].publications[uid].journal != ""
    ensures FencedOnce(saved[j], uid, saved[i].publications[uid])
    decreases j
  {
    if i < j {
      FencesAreForever(saved, admitted, i, j - 1, uid);
      FencedStep(saved[j - 1], saved[j], admitted[j - 1], uid, saved[i].publications[uid]);
    } else {
      assert ValidInventory(saved[i]);
    }
  }

  /** From the releasing checkpoint on, a released machine keeps its record and is never active. */
  lemma {:induction false} ReleasedIsForever(saved: seq<Inventory>, admitted: seq<set<Uid>>, i: nat, j: nat, uid: Uid)
    requires Chain(saved, admitted) && i <= j < |saved| && uid in saved[i].released
    ensures uid in saved[j].released && saved[j].released[uid] == saved[i].released[uid]
    ensures uid !in saved[j].publications && uid !in saved[j].machines
    decreases j
  {
    assert ValidInventory(saved[j]);
    if i < j {
      ReleasedIsForever(saved, admitted, i, j - 1, uid);
      assert Accepts(saved[j - 1], saved[j], admitted[j - 1]);
      assert ReleasedKept(saved[j - 1], saved[j], uid);
    }
  }

  /** A retiring journal is released as the incarnation it was, with its intent and any final evidence. */
  ghost predicate HandsOver(p: Publication, released: Publication) {
    p.plan == "" && p.journal != "" && p.retirement != "" && Fenced(p, released)
  }

  lemma MachineStep(a: Inventory, b: Inventory, admitted: set<Uid>, uid: Uid)
    requires Accepts(a, b, admitted) && uid in a.machines
    ensures
      || uid in b.machines
      || (&& uid in admitted && uid in b.released && uid in a.publications
          && HandsOver(a.publications[uid], b.released[uid]))
  {
    var k :| 0 <= k < |a.machines| && a.machines[k] == uid;
    assert MachineKept(a, b, admitted, k);
  }

  /** In step `k` the reservation was released with its own fence, and has been since. */
  ghost predicate ReleasedAt(saved: seq<Inventory>, admitted: seq<set<Uid>>, k: nat, j: nat, uid: Uid)
    requires |admitted| + 1 == |saved| && k < j < |saved|
  {
    && uid in saved[k].machines && uid in admitted[k] && uid in saved[j].released
    && uid in saved[k].publications && HandsOver(saved[k].publications[uid], saved[j].released[uid])
  }

  /** A reservation is active or released, never both, and leaves only by a release that carries its fence. */
  lemma {:induction false} LeavesOnlyByRelease(saved: seq<Inventory>, admitted: seq<set<Uid>>, i: nat, j: nat, uid: Uid)
    requires Chain(saved, admitted) && i <= j < |saved| && uid in saved[i].machines
    ensures uid in saved[j].machines <==> uid !in saved[j].released
    ensures uid in saved[j].machines || exists k :: i <= k < j && ReleasedAt(saved, admitted, k, j, uid)
    decreases j
  {
    assert ValidInventory(saved[j]);
    if i < j {
      LeavesOnlyByRelease(saved, admitted, i, j - 1, uid);
      assert Accepts(saved[j - 1], saved[j], admitted[j - 1]);
      if uid in saved[j - 1].machines {
        MachineStep(saved[j - 1], saved[j], admitted[j - 1], uid);
        assert uid in saved[j].machines || ReleasedAt(saved, admitted, j - 1, j, uid);
      } else {
        var k :| i <= k < j - 1 && ReleasedAt(saved, admitted, k, j - 1, uid);
        assert ReleasedKept(saved[j - 1], saved[j], uid);
        assert ReleasedAt(saved, admitted, k, j, uid);
      }
    }
  }
}
