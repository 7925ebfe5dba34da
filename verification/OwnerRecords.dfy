/**
 Receiver devices and the content-addressed records that say who owns them.

 A record's name is the hash of its content, so a directory is a set of records. A record is
 written before the device it describes is made; a withdrawn root's devices go before its
 records; and a record shared with other roots is replaced by one without the withdrawn root,
 written first. In every crash state each device is then named by a record, and no other root's
 binding has left its directory.
 */
module OwnerRecords {
  import opened Options

  type Root = string

  /** What a record says about one root: its interface and everything else that identifies it. */
  datatype Claim = Claim(interface: string, detail: string)

  datatype Record = Record(mesh: string, claims: map<Root, Claim>)

  datatype File = File(directory: string, record: Record)

  datatype Device = Device(mesh: string, root: Root, claim: Claim)

  /** What survives a crash: the replayable cache, the record files, and the devices by interface. */
  datatype World = World(cache: Option<Record>, files: set<File>, devices: map<string, Device>)

  predicate Names(r: Record, d: Device) {
    r.mesh == d.mesh && d.root in r.claims && r.claims[d.root] == d.claim
  }

  ghost predicate Filed(files: set<File>, d: Device) {
    exists f :: f in files && Names(f.record, d)
  }

  ghost predicate Recorded(w: World, d: Device) {
    Filed(w.files, d) || (w.cache.Some? && Names(w.cache.value, d))
  }

  /** Every device has a durable owner. */
  ghost predicate Good(w: World) {
    forall i | i in w.devices :: w.devices[i].claim.interface == i && Recorded(w, w.devices[i])
  }

  /** Every device has an owner record even without the replayable cache. */
  ghost predicate Archived(w: World) {
    forall i | i in w.devices :: w.devices[i].claim.interface == i && Filed(w.files, w.devices[i])
  }

  /** Ordinary retirement spares published and reserved roots; a withdrawal takes one root. */
  datatype Mode = Ordinary(spared: set<Root>) | Withdrawing(root: Root)

  predicate Eligible(mode: Mode, root: Root) {
    match mode
    case Ordinary(spared) => root !in spared
    case Withdrawing(withdrawn) => root == withdrawn
  }

  predicate Removable(mode: Mode, mesh: string, r: Record) {
    r.mesh == mesh && r.claims != map[] && forall root | root in r.claims :: Eligible(mode, root)
  }

  /** A record that a withdrawal must rewrite for the roots that stay. */
  predicate Mixed(mode: Mode, mesh: string, r: Record) {
    r.mesh == mesh && mode.Withdrawing? && mode.root in r.claims && !Removable(mode, mesh, r)
  }

  function Without(r: Record, root: Root): Record {
    r.(claims := r.claims - {root})
  }

  /** What takes the place of mixed records. */
  function Survivors(mixed: set<File>, root: Root): set<File> {
    set f | f in mixed :: File(f.directory, Without(f.record, root))
  }

  /** No binding of a root that is not being retired has left its directory. */
  ghost predicate KeepsOthers(before: set<File>, after: set<File>, mode: Mode) {
    forall f, root | f in before && root in f.record.claims && !Eligible(mode, root) :: KeepsBinding(f, root, after)
  }

  ghost predicate KeepsBinding(f: File, root: Root, after: set<File>)
    requires root in f.record.claims
  {
    exists g :: g in after && g.directory == f.directory && g.record.mesh == f.record.mesh
                && root in g.record.claims && g.record.claims[root] == f.record.claims[root]
  }

  // ----- One file at a time -----

  lemma MoreFiles(w: World, f: File)
    ensures Good(w) ==> Good(w.(files := w.files + {f}))
    ensures Archived(w) ==> Archived(w.(files := w.files + {f}))
  {
    forall d: Device | Filed(w.files, d)
      ensures Filed(w.files + {f}, d)
    {
      var g :| g in w.files && Names(g.record, d);
      assert g in w.files + {f};
    }
  }

  /** A record may go once no device still needs it. */
  lemma FewerFiles(w: World, f: File)
    requires Good(w)
    requires forall i | i in w.devices && Names(f.record, w.devices[i]) :: Filed(w.files - {f}, w.devices[i])
    ensures Good(w.(files := w.files - {f}))
  {
    forall i | i in w.devices && Filed(w.files, w.devices[i])
      ensures Filed(w.files - {f}, w.devices[i])
    {
      var g :| g in w.files && Names(g.record, w.devices[i]);
      if g != f {
        assert g in w.files - {f};
      }
    }
  }

  /** The exact device states that records of eligible roots describe. */
  function Selections(files: set<File>, mesh: string, mode: Mode): set<Device> {
    set f, root | f in files && f.record.mesh == mesh && root in f.record.claims && Eligible(mode, root) ::
      Device(mesh, root, f.record.claims[root])
  }

  /** The claims a retirement has to clear before any record goes. */
  function Groups(files: set<File>, mesh: string, mode: Mode): set<string> {
    set f, root | f in files && f.record.mesh == mesh && root in f.record.claims && Eligible(mode, root) ::
      f.record.claims[root].interface
  }

  lemma GroupsCover(files: set<File>, mesh: string, mode: Mode, f: File)
    requires f in files && f.record.mesh == mesh
    ensures forall root | root in f.record.claims && Eligible(mode, root) ::
              f.record.claims[root].interface in Groups(files, mesh, mode)
  {
  }

  /** Once the groups are gone, no device of an eligible root is named by these records. */
  lemma GroupsCleared(w: World, files: set<File>, mesh: string, mode: Mode, f: File)
    requires Good(w) && f in files && f.record.mesh == mesh && w.devices.Keys !! Groups(files, mesh, mode)
    ensures forall i | i in w.devices && Names(f.record, w.devices[i]) :: !Eligible(mode, w.devices[i].root)
  {
    GroupsCover(files, mesh, mode, f);
  }

  lemma KeepsOthersAfter(start: set<File>, files: set<File>, f: File, mode: Mode)
    requires KeepsOthers(start, files, mode)
    requires forall root | root in f.record.claims && !Eligible(mode, root) :: KeepsBinding(f, root, files - {f})
    ensures KeepsOthers(start, files - {f}, mode)
  {
    forall g, root | g in start && root in g.record.claims && !Eligible(mode, root)
      ensures KeepsBinding(g, root, files - {f})
    {
      assert KeepsBinding(g, root, files);
      var h :| h in files && h.directory == g.directory && h.record.mesh == g.record.mesh && root in h.record.claims &&
        h.record.claims[root] == g.record.claims[root];
      if h == f {
        assert KeepsBinding(f, root, files - {f});
      } else {
        assert h in files - {f};
      }
    }
  }

  lemma KeepsOthersMore(start: set<File>, files: set<File>, f: File, mode: Mode)
    requires KeepsOthers(start, files, mode)
    ensures KeepsOthers(start, files + {f}, mode)
  {
    forall g, root | g in start && root in g.record.claims && !Eligible(mode, root)
      ensures KeepsBinding(g, root, files + {f})
    {
      assert KeepsBinding(g, root, files);
      var h :| h in files && h.directory == g.directory && h.record.mesh == g.record.mesh && root in h.record.claims &&
        h.record.claims[root] == g.record.claims[root];
      assert h in files + {f};
    }
  }

  lemma KeepsOthersStart(files: set<File>, mode: Mode)
    ensures KeepsOthers(files, files, mode)
  {
  }

  /** The record written before a mixed one goes still names every other root's device. */
  lemma SurvivorNames(w: World, f: File, root: Root, mesh: string, files: set<File>, i: string)
    requires Good(w) && f in files && f.record.mesh == mesh && w.devices.Keys !! Groups(files, mesh, Withdrawing(root))
    requires i in w.devices && Names(f.record, w.devices[i]) && File(f.directory, Without(f.record, root)) in w.files
    requires root in f.record.claims
    ensures Filed(w.files - {f}, w.devices[i])
  {
    GroupsCleared(w, files, mesh, Withdrawing(root), f);
    var g := File(f.directory, Without(f.record, root));
    assert root !in g.record.claims && g != f;
    assert g in w.files - {f} && Names(g.record, w.devices[i]);
  }

  lemma SurvivorKeeps(files: set<File>, f: File, root: Root, other: Root)
    requires File(f.directory, Without(f.record, root)) in files && root in f.record.claims
    requires other in f.record.claims && other != root
    ensures KeepsBinding(f, other, files - {f})
  {
    var g := File(f.directory, Without(f.record, root));
    assert root !in g.record.claims && g != f;
    assert g in files - {f} && g.record.claims[other] == f.record.claims[other];
  }

  ghost predicate AllGood(states: seq<World>) {
    forall i | 0 <= i < |states| :: Good(states[i])
  }

  ghost predicate AllKeep(states: seq<World>, start: set<File>, mode: Mode) {
    forall i | 0 <= i < |states| :: KeepsOthers(start, states[i].files, mode)
  }

  /** A root and what its device will be. */
  datatype Intent = Intent(root: Root, claim: Claim)

  function Roots(intents: seq<Intent>): set<Root> {
    if intents == [] then {} else Roots(intents[..|intents| - 1]) + {intents[|intents| - 1].root}
  }

  function DeviceOf(mesh: string, intent: Intent): Device {
    Device(mesh, intent.root, intent.claim)
  }

  function FileOf(directory: string, mesh: string, intent: Intent): File {
    File(directory, Record(mesh, map[intent.root := intent.claim]))
  }

  /** The devices once the intents are carried out in order. */
  function Made(devices: map<string, Device>, mesh: string, intents: seq<Intent>): map<string, Device> {
    if intents == [] then devices
    else
      var last := intents[|intents| - 1];
      Made(devices, mesh, intents[..|intents| - 1])[last.claim.interface := DeviceOf(mesh, last)]
  }

  function Claimed(claims: map<Root, Claim>, intents: seq<Intent>): map<Root, Claim> {
    if intents == [] then claims
    else
      var last := intents[|intents| - 1];
      Claimed(claims, intents[..|intents| - 1])[last.root := last.claim]
  }

  function FilesOf(directory: string, mesh: string, intents: seq<Intent>): set<File> {
    if intents == [] then {}
    else FilesOf(directory, mesh, intents[..|intents| - 1]) + {FileOf(directory, mesh, intents[|intents| - 1])}
  }

  function Restricted(claims: map<Root, Claim>, roots: set<Root>): map<Root, Claim> {
    map root | root in claims && root in roots :: claims[root]
  }

  /** What archiving the replayable cache adds. */
  function Preserved(directory: string, cache: Option<Record>): set<File> {
    if cache.None? || cache.value.claims == map[] then {} else {File(directory, cache.value)}
  }

  /** The intent's own device is there. */
  ghost predicate HasOwnDevice(devices: map<string, Device>, mesh: string, intent: Intent) {
    intent.claim.interface in devices && devices[intent.claim.interface] == DeviceOf(mesh, intent)
  }

  /** No two different intents ask for one interface. */
  predicate OneIntentEach(intents: seq<Intent>) {
    forall i, j | 0 <= i < |intents| && 0 <= j < |intents| &&
      intents[i].claim.interface == intents[j].claim.interface ::
      intents[i] == intents[j]
  }

  lemma {:induction false} MadeIsOwn(devices: map<string, Device>, mesh: string, intents: seq<Intent>, i: nat)
    requires OneIntentEach(intents) && i < |intents|
    ensures HasOwnDevice(Made(devices, mesh, intents), mesh, intents[i])
  {
    var front, last := intents[..|intents| - 1], intents[|intents| - 1];
    if last.claim.interface == intents[i].claim.interface {
      assert last == intents[i];
    } else {
      assert front[i] == intents[i];
      MadeIsOwn(devices, mesh, front, i);
    }
  }

  /** Every intent ends with its own device exactly when no two different intents share an interface. */
  lemma {:induction false} MadeIsOwnIff(devices: map<string, Device>, mesh: string, intents: seq<Intent>)
    ensures (forall i | 0 <= i < |intents| :: HasOwnDevice(Made(devices, mesh, intents), mesh, intents[i])) <==>
              OneIntentEach(intents)
  {
    if OneIntentEach(intents) {
      forall i | 0 <= i < |intents|
        ensures HasOwnDevice(Made(devices, mesh, intents), mesh, intents[i])
      {
        MadeIsOwn(devices, mesh, intents, i);
      }
    }
  }

  lemma {:induction false} FilesOfHit(directory: string, mesh: string, intents: seq<Intent>, i: nat)
    requires i < |intents|
    ensures FileOf(directory, mesh, intents[i]) in FilesOf(directory, mesh, intents)
  {
    if i < |intents| - 1 {
      assert intents[..|intents| - 1][i] == intents[i];
      FilesOfHit(directory, mesh, intents[..|intents| - 1], i);
    }
  }

  lemma {:induction false} ClaimedKeys(claims: map<Root, Claim>, intents: seq<Intent>)
    ensures Claimed(claims, intents).Keys == claims.Keys + Roots(intents)
  {
    if intents != [] {
      ClaimedKeys(claims, intents[..|intents| - 1]);
    }
  }

  /** Every device on a selected interface is in a recorded state. */
  ghost predicate Recognised(w: World, mesh: string, mode: Mode) {
    forall i | i in w.devices && i in Groups(w.files, mesh, mode) :: w.devices[i] in Selections(w.files, mesh, mode)
  }

  /** A withdrawn root is not published again, and every record of the mesh can be planned. */
  predicate Admitted(files: set<File>, mesh: string, mode: Mode, published: set<Root>, plannable: Record -> bool) {
    forall f | f in files && f.record.mesh == mesh ::
      plannable(f.record) && !(mode.Withdrawing? && mode.root in published)
  }

  // ----- What a retirement means -----

  /** Every binding of a root that stays is still in its directory. */
  ghost predicate StayingBound(before: set<File>, after: set<File>, mode: Mode) {
    match mode
    case Ordinary(spared) =>
      forall f, root | f in before && root in f.record.claims && root in spared :: KeepsBinding(f, root, after)
    case Withdrawing(withdrawn) =>
      forall f, root | f in before && root in f.record.claims && root != withdrawn :: KeepsBinding(f, root, after)
  }

  /** Every device of a root that stays is still there. */
  ghost predicate StayingUp(before: map<string, Device>, after: map<string, Device>, mode: Mode) {
    match mode
    case Ordinary(spared) => forall i | i in before && before[i].root in spared :: i in after
    case Withdrawing(withdrawn) => forall i | i in before && before[i].root != withdrawn :: i in after
  }

  /** No device is left on an interface that a record of the mesh gave to a root that goes. */
  ghost predicate Vacated(files: set<File>, devices: map<string, Device>, mesh: string, mode: Mode) {
    match mode
    case Ordinary(spared) =>
      forall f, root | f in files && f.record.mesh == mesh && root in f.record.claims && root !in spared ::
        f.record.claims[root].interface !in devices
    case Withdrawing(withdrawn) =>
      forall f | f in files && f.record.mesh == mesh && withdrawn in f.record.claims ::
        f.record.claims[withdrawn].interface !in devices
  }

  /** Every record of the mesh can be planned, and if there is one, no root to be withdrawn is published. */
  ghost predicate Permitted(files: set<File>, mesh: string, mode: Mode, published: set<Root>,
                            plannable: Record -> bool) {
    && (forall f | f in files :: f.record.mesh == mesh ==> plannable(f.record))
    && (forall root | mode == Withdrawing(root) && root in published :: forall f | f in files :: f.record.mesh != mesh)
  }

  /** The records after a retirement. */
  function Remaining(files: set<File>, mesh: string, mode: Mode): set<File> {
    match mode
    case Ordinary(spared) =>
      set f | f in files && (f.record.mesh == mesh && f.record.claims != map[] ==> f.record.claims.Keys * spared != {})
    case Withdrawing(withdrawn) =>
      (set f | f in files && (f.record.mesh != mesh || withdrawn !in f.record.claims)) +
      Survivors((set f | f in files && f.record.mesh == mesh && {withdrawn} < f.record.claims.Keys), withdrawn)
  }

  /** A record of the mesh gives this interface to a root that goes. */
  ghost predicate Leaves(files: set<File>, mesh: string, mode: Mode, root: Root, claim: Claim) {
    && (match mode case Ordinary(spared) => root !in spared case Withdrawing(withdrawn) => root == withdrawn)
    && exists f :: f in files && f.record.mesh == mesh && root in f.record.claims && f.record.claims[root] == claim
  }

  /** A device on an interface that has to go is in a state some record of a root that goes describes. */
  ghost predicate Exact(w: World, mesh: string, mode: Mode) {
    forall i, root, claim {:trigger i in w.devices, Leaves(w.files, mesh, mode, root, claim)} |
      i in w.devices && Leaves(w.files, mesh, mode, root, claim) && claim.interface == i ::
      var d := w.devices[i]; d.mesh == mesh && Leaves(w.files, mesh, mode, d.root, d.claim)
  }

  lemma LeavesIffSelected(files: set<File>, mesh: string, mode: Mode, root: Root, claim: Claim)
    ensures Leaves(files, mesh, mode, root, claim) <==> Device(mesh, root, claim) in Selections(files, mesh, mode)
  {
    if Leaves(files, mesh, mode, root, claim) {
      var f :| f in files && f.record.mesh == mesh && root in f.record.claims && f.record.claims[root] == claim;
      assert Eligible(mode, root);
    }
    if Device(mesh, root, claim) in Selections(files, mesh, mode) {
      var f, other :| f in files && f.record.mesh == mesh && other in f.record.claims && Eligible(mode, other) &&
        Device(mesh, other, f.record.claims[other]) == Device(mesh, root, claim);
    }
  }

  lemma ExactIffRecognised(w: World, mesh: string, mode: Mode)
    ensures Exact(w, mesh, mode) <==> Recognised(w, mesh, mode)
  {
    forall root, claim
      ensures Leaves(w.files, mesh, mode, root, claim) <==>
              Device(mesh, root, claim) in Selections(w.files, mesh, mode)
    {
      LeavesIffSelected(w.files, mesh, mode, root, claim);
    }
    forall i
      ensures i in Groups(w.files, mesh, mode) <==>
                exists root, claim :: Leaves(w.files, mesh, mode, root, claim) && claim.interface == i
    {
      if i in Groups(w.files, mesh, mode) {
        var f, root :| f in w.files && f.record.mesh == mesh && root in f.record.claims && Eligible(mode, root) &&
          f.record.claims[root].interface == i;
        assert Leaves(w.files, mesh, mode, root, f.record.claims[root]);
      }
    }
  }

  lemma RetiredMeans(before: World, devices: map<string, Device>, mesh: string, mode: Mode)
    requires forall i | i in before.devices && i !in devices ::
               before.devices[i] in Selections(before.files, mesh, mode)
    ensures StayingUp(before.devices, devices, mode)
    ensures forall i | i in before.devices && i !in devices :: Filed(before.files, before.devices[i])
    ensures devices.Keys !! Groups(before.files, mesh, mode) ==> Vacated(before.files, devices, mesh, mode)
  {
    forall i | i in before.devices && i !in devices
      ensures Filed(before.files, before.devices[i])
    {
      var f, root :| f in before.files && f.record.mesh == mesh && root in f.record.claims && Eligible(mode, root) &&
        before.devices[i] == Device(mesh, root, f.record.claims[root]);
      assert Names(f.record, before.devices[i]);
    }
    if devices.Keys !! Groups(before.files, mesh, mode) {
      forall f | f in before.files && f.record.mesh == mesh
        ensures forall root | root in f.record.claims && Eligible(mode, root) ::
                  f.record.claims[root].interface !in devices
      {
        GroupsCover(before.files, mesh, mode, f);
      }
    }
  }

  lemma KeptIsStaying(before: set<File>, after: set<File>, mode: Mode)
    requires KeepsOthers(before, after, mode)
    ensures StayingBound(before, after, mode)
  {
  }

  /** The records that removal and rewriting leave. */
  function Kept(files: set<File>, mesh: string, mode: Mode): set<File> {
    var rest := set f | f in files && !Removable(mode, mesh, f.record);
    match mode
    case Ordinary(_) => rest
    case Withdrawing(root) =>
      var mixed := set f | f in rest && Mixed(mode, mesh, f.record);
      rest - mixed + Survivors(mixed, root)
  }

  lemma RemainingIsKept(files: set<File>, mesh: string, mode: Mode)
    ensures Kept(files, mesh, mode) == Remaining(files, mesh, mode)
  {
    forall f: File | f in files
      ensures Removable(mode, mesh, f.record) <==>
              && f.record.mesh == mesh && f.record.claims != map[]
              && match mode
                 case Ordinary(spared) => f.record.claims.Keys * spared == {}
                 case Withdrawing(root) => f.record.claims.Keys == {root}
    {
      RemovableIff(mode, mesh, f.record);
    }
    if mode.Withdrawing? {
      var rest := set f | f in files && !Removable(mode, mesh, f.record);
      assert (set f | f in rest && Mixed(mode, mesh, f.record)) ==
             (set f | f in files && f.record.mesh == mesh && {mode.root} < f.record.claims.Keys);
    }
  }

  lemma RemovableIff(mode: Mode, mesh: string, r: Record)
    ensures Removable(mode, mesh, r) <==>
            && r.mesh == mesh && r.claims != map[]
            && match mode
               case Ordinary(spared) => r.claims.Keys * spared == {}
               case Withdrawing(root) => r.claims.Keys == {root}
  {
    match mode
    case Ordinary(spared) =>
      assert forall root :: root in r.claims.Keys * spared <==> root in r.claims && root in spared;
    case Withdrawing(root) =>
      if r.claims != map[] && forall other | other in r.claims :: other == root {
        assert exists other :: other in r.claims;
        assert r.claims.Keys == {root};
      }
  }

  lemma RewrittenNext(files: set<File>, mixed: set<File>, todo: set<File>, f: File, root: Root)
    requires f in todo && todo <= mixed && root in f.record.claims
    ensures files - (mixed - todo) + Survivors(mixed - todo, root) +
            {File(f.directory, Without(f.record, root))} - {f} ==
            files - (mixed - (todo - {f})) + Survivors(mixed - (todo - {f}), root)
  {
    assert mixed - (todo - {f}) == (mixed - todo) + {f};
    assert Survivors((mixed - todo) + {f}, root) ==
           Survivors(mixed - todo, root) + {File(f.directory, Without(f.record, root))};
    assert f !in Survivors((mixed - todo) + {f}, root);
  }

  class Host {
    var cache: Option<Record>
    var files: set<File>
    var devices: map<string, Device>
    /** Every state a crash could have exposed so far, the present one last. */
    ghost var trace: seq<World>
    /** How many writes, kernel calls or renewals of live authority have failed. */
    ghost var faults: nat

    ghost function Now(): World
      reads this
    {
      World(cache, files, devices)
    }

    ghost predicate Valid()
      reads this
    {
      trace != [] && trace[|trace| - 1] == Now() && AllGood(trace)
    }

    constructor (w: World)
      requires Good(w)
      ensures Now() == w && Valid() && trace == [w]
    {
      cache, files, devices := w.cache, w.files, w.devices;
      faults := 0;
      trace := [w];
    }

    // ----- Single steps -----

    method AddFile(f: File) returns (ok: bool)
      requires Valid()
      modifies this`files, this`trace, this`faults
      ensures Valid() && files == (if ok then old(files) + {f} else old(files))
      ensures trace == (if ok then old(trace) + [Now()] else old(trace))
      ensures (if ok then faults == old(faults) else faults > old(faults))
      ensures old(Archived(Now())) ==> Archived(Now())
    {
      ok := *;
      if ok {
        MoreFiles(Now(), f);
        files := files + {f};
        trace := trace + [Now()];
      } else {
        faults := faults + 1;
      }
    }

    method RemoveFile(f: File) returns (ok: bool)
      requires Valid() && Good(Now().(files := files - {f}))
      modifies this`files, this`trace, this`faults
      ensures Valid() && files == (if ok then old(files) - {f} else old(files))
      ensures trace == (if ok then old(trace) + [Now()] else old(trace))
      ensures (if ok then faults == old(faults) else faults > old(faults))
    {
      ok := *;
      if ok {
        files := files - {f};
        trace := trace + [Now()];
      } else {
        faults := faults + 1;
      }
    }

    method WriteCache(next: Record) returns (ok: bool)
      requires Valid() && Archived(Now())
      modifies this`cache, this`trace, this`faults
      ensures Valid() && cache == (if ok then Some(next) else old(cache))
      ensures trace == (if ok then old(trace) + [Now()] else old(trace))
      ensures (if ok then faults == old(faults) else faults > old(faults))
    {
      ok := *;
      if ok {
        cache := Some(next);
        trace := trace + [Now()];
      } else {
        faults := faults + 1;
      }
    }

    /** Makes or updates the device of an intent that is already on record. */
    method MakeDevice(mesh: string, intent: Intent) returns (ok: bool)
      requires Valid() && Archived(Now()) && Filed(files, Device(mesh, intent.root, intent.claim))
      modifies this`devices, this`trace, this`faults
      ensures Valid() && Archived(Now())
      ensures devices == if ok then old(devices)[intent.claim.interface := Device(mesh, intent.root, intent.claim)]
                else old(devices)
      ensures trace == (if ok then old(trace) + [Now()] else old(trace))
      ensures (if ok then faults == old(faults) else faults > old(faults))
    {
      ok := *;
      if ok {
        devices := devices[intent.claim.interface := Device(mesh, intent.root, intent.claim)];
        trace := trace + [Now()];
      } else {
        faults := faults + 1;
      }
    }

    method RemoveDevice(interface: string) returns (ok: bool)
      requires Valid()
      modifies this`devices, this`trace, this`faults
      ensures Valid() && devices == (if ok then old(devices) - {interface} else old(devices))
      ensures trace == (if ok then old(trace) + [Now()] else old(trace))
      ensures (if ok then faults == old(faults) else faults > old(faults))
    {
      ok := *;
      if ok {
        devices := devices - {interface};
        trace := trace + [Now()];
      } else {
        faults := faults + 1;
      }
    }

    /** Live authority may be refused at any renewal. */
    method Renew() returns (ok: bool)
      modifies this`faults
      ensures if ok then faults == old(faults) else faults > old(faults)
    {
      ok := *;
      if !ok {
        faults := faults + 1;
      }
    }

    // ----- Preparing receivers -----

    /** Archives what only the cache may name, so that the cache can be replaced. */
    method PreserveCache(directory: string) returns (ok: bool)
      requires Valid()
      modifies this`files, this`trace, this`faults
      ensures Valid() && old(trace) <= trace
      ensures files == old(files) + if ok then Preserved(directory, cache) else {}
      ensures if ok then faults == old(faults) else faults > old(faults)
      ensures ok ==> Archived(Now())
    {
      if cache.None? || cache.value.claims == map[] {
        CacheNamesNothing(Now());
        return true;
      }
      ghost var before := Now();
      ok := AddFile(File(directory, cache.value));
      if ok {
        CacheIsArchived(before, directory);
      }
    }

    method ReplaceCache(directory: string, next: Record) returns (ok: bool)
      requires Valid()
      modifies this`cache, this`files, this`trace, this`faults
      ensures Valid() && old(trace) <= trace && old(files) <= files
      ensures if ok then faults == old(faults) else faults > old(faults)
      ensures ok ==> Archived(Now()) && cache == Some(next) && files == old(files) + Preserved(directory, old(cache))
    {
      ok := PreserveCache(directory);
      if ok {
        ok := WriteCache(next);
      }
    }

    /**
     One preparation pass: the old cache is archived before it is replaced, and every intent is on
     record before its device is made. It may stop after any step.
     */
    method Prepare(directory: string, next: Record, intents: seq<Intent>) returns (ok: bool)
      requires Valid()
      modifies this
      ensures Valid() && old(trace) <= trace && old(files) <= files
      ensures if ok then faults == old(faults) else faults > old(faults)
      ensures ok ==> Archived(Now()) && devices == Made(old(devices), next.mesh, intents)
      ensures ok ==> cache == Some(next.(claims := Restricted(Claimed(next.claims, intents), Roots(intents))))
      ensures ok ==> cache.value.claims.Keys == Roots(intents)
      ensures ok ==> files == old(files) + Preserved(directory, old(cache)) + FilesOf(directory, next.mesh, intents)
      ensures ok ==> forall i | 0 <= i < |intents| :: FileOf(directory, next.mesh, intents[i]) in files
      ensures ok && OneIntentEach(intents) ==>
                forall i | 0 <= i < |intents| :: HasOwnDevice(devices, next.mesh, intents[i])
    {
      ok := ReplaceCache(directory, next);
      if !ok {
        return;
      }
      var seen;
      ok, seen := PrepareAll(directory, next.mesh, intents);
      if !ok {
        return;
      }
      ClaimedKeys(next.claims, intents);
      ok := WriteCache(cache.value.(claims := Restricted(cache.value.claims, seen)));
    }

    method PrepareAll(directory: string, mesh: string, intents: seq<Intent>) returns (ok: bool, seen: set<Root>)
      requires Valid() && Archived(Now()) && cache.Some? && cache.value.mesh == mesh
      modifies this
      ensures Valid() && Archived(Now()) && old(trace) <= trace && old(files) <= files
      ensures if ok then faults == old(faults) else faults > old(faults)
      ensures ok ==> seen == Roots(intents) && devices == Made(old(devices), mesh, intents)
      ensures ok ==> cache == Some(old(cache).value.(claims := Claimed(old(cache).value.claims, intents)))
      ensures ok ==> files == old(files) + FilesOf(directory, mesh, intents)
      ensures ok ==> forall i | 0 <= i < |intents| :: FileOf(directory, mesh, intents[i]) in files
      ensures ok && OneIntentEach(intents) ==> forall i | 0 <= i < |intents| :: HasOwnDevice(devices, mesh, intents[i])
    {
      seen := {};
      for k := 0 to |intents|
        invariant Valid() && Archived(Now()) && faults == old(faults) && old(trace) <= trace
        invariant seen == Roots(intents[..k]) && devices == Made(old(devices), mesh, intents[..k])
        invariant cache == Some(old(cache).value.(claims := Claimed(old(cache).value.claims, intents[..k])))
        invariant files == old(files) + FilesOf(directory, mesh, intents[..k])
      {
        assert intents[..k + 1][..k] == intents[..k];
        ok := PrepareOne(directory, mesh, intents[k]);
        if !ok {
          return;
        }
        seen := seen + {intents[k].root};
      }
      assert intents[..|intents|] == intents;
      MadeIsOwnIff(old(devices), mesh, intents);
      forall i | 0 <= i < |intents|
        ensures FileOf(directory, mesh, intents[i]) in files
      {
        FilesOfHit(directory, mesh, intents, i);
      }
      ok := true;
    }

    method PrepareOne(directory: string, mesh: string, intent: Intent) returns (ok: bool)
      requires Valid() && Archived(Now()) && cache.Some? && cache.value.mesh == mesh
      modifies this
      ensures Valid() && Archived(Now()) && old(trace) <= trace && old(files) <= files
      ensures if ok then faults == old(faults) else faults > old(faults)
      ensures ok ==> cache == Some(old(cache).value.(claims := old(cache.value).claims[intent.root := intent.claim]))
      ensures ok ==> files == old(files) + {FileOf(directory, mesh, intent)}
      ensures ok ==> devices == old(devices)[intent.claim.interface := DeviceOf(mesh, intent)]
    {
      var f := FileOf(directory, mesh, intent);
      ok := AddFile(f);
      if !ok {
        return;
      }
      assert f in files && Names(f.record, DeviceOf(mesh, intent));
      ok := MakeDevice(mesh, intent);
      if !ok {
        return;
      }
      ok := WriteCache(cache.value.(claims := cache.value.claims[intent.root := intent.claim]));
    }

    // ----- Retiring receivers -----

    /** Native retirement of every selected interface, each only in an exactly recorded state. */
    method RetireDevices(groups: set<string>, selections: set<Device>) returns (ok: bool)
      requires Valid()
      modifies this`devices, this`trace, this`faults
      ensures Valid() && old(trace) <= trace
      ensures forall k | |old(trace)| <= k < |trace| :: trace[k].files == files
      ensures forall i | i in devices :: i in old(devices) && devices[i] == old(devices)[i]
      ensures forall i | i in old(devices) && i !in devices :: i in groups && old(devices)[i] in selections
      ensures ok ==> devices.Keys !! groups
      ensures ok ==> faults == old(faults)
      ensures !ok && (forall i | i in groups && i in old(devices) :: old(devices)[i] in selections) ==>
                faults > old(faults)
    {
      var todo := groups;
      while todo != {}
        invariant Valid() && faults == old(faults) && old(trace) <= trace && todo <= groups
        invariant forall k | |old(trace)| <= k < |trace| :: trace[k].files == files
        invariant forall i | i in devices :: i in old(devices) && devices[i] == old(devices)[i]
        invariant forall i | i in old(devices) && i !in devices :: i in groups && old(devices)[i] in selections
        invariant forall i | i in groups && i !in todo :: i !in devices
        decreases |todo|
      {
        var i :| i in todo;
        ok := Renew();
        if !ok {
          return;
        }
        if i in devices {
          if devices[i] !in selections {
            return false;
          }
          ok := RemoveDevice(i);
          if !ok {
            return;
          }
        }
        todo := todo - {i};
      }
      ok := true;
    }

    /**
     Retires the eligible roots of one mesh: devices first, then records whose every root is
     eligible, then mixed records, each only after its survivor is written.
     */
    method RetireEligible(mesh: string, mode: Mode, published: set<Root>, plannable: Record -> bool)
      returns (ok: bool)
      requires Valid()
      modifies this`files, this`devices, this`trace, this`faults
      ensures Valid() && old(trace) <= trace
      ensures AllKeep(trace[|old(trace)|..], old(files), mode)
      ensures forall i | i in devices :: i in old(devices) && devices[i] == old(devices)[i]
      ensures forall i | i in old(devices) && i !in devices :: old(devices)[i] in Selections(old(files), mesh, mode)
      ensures ok ==> devices.Keys !! Groups(old(files), mesh, mode) && files == Kept(old(files), mesh, mode)
      ensures !Admitted(old(files), mesh, mode, published, plannable) ==>
                !ok && Now() == old(Now()) && trace == old(trace)
      ensures ok ==> faults == old(faults)
      ensures faults == old(faults) ==>
                (ok <==> Admitted(old(files), mesh, mode, published, plannable) && Recognised(old(Now()), mesh, mode))
    {
      if !Admitted(files, mesh, mode, published, plannable) {
        return false;
      }
      ghost var start := files;
      KeepsOthersStart(files, mode);
      var groups := Groups(files, mesh, mode);
      ok := RetireDevices(groups, Selections(files, mesh, mode));
      if !ok {
        return;
      }
      ok := RemoveRecords(mesh, mode, start, |old(trace)|);
      if !ok || mode.Ordinary? {
        return;
      }
      ok := RewriteMixed(mesh, mode, start, |old(trace)|);
    }

    /**
     One retirement. In ordinary mode no device of a spared root goes and, in every exposed state,
     each binding of a spared root is still recorded in its directory; success leaves no device on
     an interface a record gave to another root, and keeps exactly the records that are empty, of
     another mesh or bind a spared root. A withdrawal does the same for one root, and what is left
     of a record it shares with others takes that record's place. Whether a record can be planned,
     in particular whether another journal reserves its interface, is a parameter.
     */
    method Retire(mesh: string, mode: Mode, published: set<Root>, plannable: Record -> bool) returns (ok: bool)
      requires Valid()
      modifies this`files, this`devices, this`trace, this`faults
      ensures Valid() && old(trace) <= trace
      ensures forall k | |old(trace)| <= k < |trace| :: StayingBound(old(files), trace[k].files, mode)
      ensures forall i | i in devices :: i in old(devices) && devices[i] == old(devices)[i]
      ensures StayingUp(old(devices), devices, mode)
      ensures forall i | i in old(devices) && i !in devices :: Filed(old(files), old(devices)[i])
      ensures ok ==> Vacated(old(files), devices, mesh, mode) && files == Remaining(old(files), mesh, mode)
      ensures !Permitted(old(files), mesh, mode, published, plannable) ==>
                !ok && Now() == old(Now()) && trace == old(trace)
      ensures ok ==> faults == old(faults)
      ensures faults == old(faults) ==>
                (ok <==> Permitted(old(files), mesh, mode, published, plannable) && Exact(old(Now()), mesh, mode))
    {
      ok := RetireEligible(mesh, mode, published, plannable);
      assert Permitted(old(files), mesh, mode, published, plannable) <==>
             Admitted(old(files), mesh, mode, published, plannable);
      RetiredMeans(old(Now()), devices, mesh, mode);
      ExactIffRecognised(old(Now()), mesh, mode);
      RemainingIsKept(old(files), mesh, mode);
      forall k | |old(trace)| <= k < |trace|
        ensures StayingBound(old(files), trace[k].files, mode)
      {
        assert trace[|old(trace)|..][k - |old(trace)|] == trace[k];
        KeptIsStaying(old(files), trace[k].files, mode);
      }
    }

    /** The part of a retirement's state that its record changes rely on. */
    ghost predicate Cleared(mesh: string, mode: Mode, start: set<File>, n: nat)
      reads this
    {
      && Valid() && n <= |trace| && devices.Keys !! Groups(start, mesh, mode)
      && KeepsOthers(start, files, mode) && AllKeep(trace[n..], start, mode)
    }

    method RemoveRecords(mesh: string, mode: Mode, ghost start: set<File>, ghost n: nat) returns (ok: bool)
      requires Cleared(mesh, mode, start, n) && files <= start
      modifies this`files, this`trace, this`faults
      ensures Cleared(mesh, mode, start, n) && old(trace) <= trace && files <= old(files)
      ensures (if ok then faults == old(faults) else faults > old(faults))
      ensures ok ==> files == set f | f in old(files) && !Removable(mode, mesh, f.record)
    {
      var todo := set f | f in files && Removable(mode, mesh, f.record);
      while todo != {}
        invariant Cleared(mesh, mode, start, n) && faults == old(faults) && old(trace) <= trace && files <= old(files)
        invariant todo <= files
        invariant forall f | f in todo :: Removable(mode, mesh, f.record)
        invariant forall f | f in old(files) :: f in files <==> f in todo || !Removable(mode, mesh, f.record)
        decreases |todo|
      {
        var f :| f in todo;
        UnneededRecord(Now(), start, mesh, mode, f);
        ok := RemoveOne(f, mesh, mode, start, n);
        if !ok {
          return;
        }
        todo := todo - {f};
      }
      ok := true;
    }

    method RewriteMixed(mesh: string, mode: Mode, ghost start: set<File>, ghost n: nat) returns (ok: bool)
      requires mode.Withdrawing? && Cleared(mesh, mode, start, n) && files <= start
      requires forall f | f in files :: !Removable(mode, mesh, f.record)
      modifies this`files, this`trace, this`faults
      ensures Cleared(mesh, mode, start, n) && old(trace) <= trace
      ensures (if ok then faults == old(faults) else faults > old(faults))
      ensures ok ==> var mixed := set f | f in old(files) && Mixed(mode, mesh, f.record);
                     files == old(files) - mixed + Survivors(mixed, mode.root)
    {
      var todo := set f | f in files && Mixed(mode, mesh, f.record);
      ghost var mixed := todo;
      while todo != {}
        invariant Cleared(mesh, mode, start, n) && faults == old(faults) && old(trace) <= trace
        invariant todo <= mixed && files == old(files) - (mixed - todo) + Survivors(mixed - todo, mode.root)
        decreases |todo|
      {
        var f :| f in todo;
        ok := RewriteOne(f, mesh, mode, start, n);
        if !ok {
          return;
        }
        RewrittenNext(old(files), mixed, todo, f, mode.root);
        todo := todo - {f};
      }
      assert mixed - {} == mixed;
      ok := true;
    }

    /** The survivor first, then the mixed record. */
    method RewriteOne(f: File, mesh: string, mode: Mode, ghost start: set<File>, ghost n: nat) returns (ok: bool)
      requires mode.Withdrawing? && Cleared(mesh, mode, start, n) && f in files && f in start
      requires Mixed(mode, mesh, f.record)
      modifies this`files, this`trace, this`faults
      ensures Cleared(mesh, mode, start, n) && old(trace) <= trace
      ensures (if ok then faults == old(faults) else faults > old(faults))
      ensures ok ==> files == old(files) + {File(f.directory, Without(f.record, mode.root))} - {f}
    {
      var survivor := File(f.directory, Without(f.record, mode.root));
      ok := AddOne(survivor, mesh, mode, start, n);
      if !ok {
        return;
      }
      ReplacedRecord(Now(), start, mesh, mode.root, f);
      ok := RemoveOne(f, mesh, mode, start, n);
    }

    method AddOne(f: File, mesh: string, mode: Mode, ghost start: set<File>, ghost n: nat) returns (ok: bool)
      requires Cleared(mesh, mode, start, n)
      modifies this`files, this`trace, this`faults
      ensures Cleared(mesh, mode, start, n) && old(trace) <= trace
      ensures (if ok then faults == old(faults) else faults > old(faults))
      ensures files == if ok then old(files) + {f} else old(files)
    {
      KeepsOthersMore(start, files, f, mode);
      ok := AddFile(f);
    }

    /** Removes a record that neither a device nor another root's binding depends on. */
    method RemoveOne(f: File, mesh: string, mode: Mode, ghost start: set<File>, ghost n: nat) returns (ok: bool)
      requires Cleared(mesh, mode, start, n) && Unneeded(Now(), mode, f)
      modifies this`files, this`trace, this`faults
      ensures Cleared(mesh, mode, start, n) && old(trace) <= trace
      ensures (if ok then faults == old(faults) else faults > old(faults))
      ensures files == if ok then old(files) - {f} else old(files)
    {
      FewerFiles(Now(), f);
      KeepsOthersAfter(start, files, f, mode);
      ok := RemoveFile(f);
    }
  }

  /** Without `f` its devices are still named and its other bindings still recorded. */
  ghost predicate Unneeded(w: World, mode: Mode, f: File) {
    && (forall i | i in w.devices && Names(f.record, w.devices[i]) :: Filed(w.files - {f}, w.devices[i]))
    && (forall root | root in f.record.claims && !Eligible(mode, root) :: KeepsBinding(f, root, w.files - {f}))
  }

  lemma UnneededRecord(w: World, start: set<File>, mesh: string, mode: Mode, f: File)
    requires Good(w) && f in start && Removable(mode, mesh, f.record) && w.devices.Keys !! Groups(start, mesh, mode)
    ensures Unneeded(w, mode, f)
  {
    GroupsCleared(w, start, mesh, mode, f);
  }

  lemma ReplacedRecord(w: World, start: set<File>, mesh: string, root: Root, f: File)
    requires Good(w) && f in start && f.record.mesh == mesh && root in f.record.claims
    requires w.devices.Keys !! Groups(start, mesh, Withdrawing(root))
    requires File(f.directory, Without(f.record, root)) in w.files
    ensures Unneeded(w, Withdrawing(root), f)
  {
    forall i | i in w.devices && Names(f.record, w.devices[i])
      ensures Filed(w.files - {f}, w.devices[i])
    {
      SurvivorNames(w, f, root, mesh, start, i);
    }
    forall other | other in f.record.claims && other != root
      ensures KeepsBinding(f, other, w.files - {f})
    {
      SurvivorKeeps(w.files, f, root, other);
    }
  }

  lemma CacheNamesNothing(w: World)
    requires Good(w) && (w.cache.None? || w.cache.value.claims == map[])
    ensures Archived(w)
  {
  }

  lemma CacheIsArchived(before: World, directory: string)
    requires Good(before) && before.cache.Some?
    ensures Archived(before.(files := before.files + {File(directory, before.cache.value)}))
  {
    var f := File(directory, before.cache.value);
    forall i | i in before.devices
      ensures Filed(before.files + {f}, before.devices[i])
    {
      if Filed(before.files, before.devices[i]) {
        var g :| g in before.files && Names(g.record, before.devices[i]);
        assert g in before.files + {f};
      } else {
        assert f in before.files + {f};
      }
    }
  }
}
