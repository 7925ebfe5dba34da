/**
 Withdrawing a worker from the forwarding cache and the advertisement cache beside it.

 The advertisement cache names the forwarding render it belongs to by hash, and a reader accepts
 the two files only together. The hash is taken to be injective, so it is modelled by the render
 itself. A withdrawal replaces the advertisement file first. The results are that a crash in
 between never leaves a pair a reader would accept, and that a retry completes it.
 */
module SiteCaches {
  import opened Options

  datatype Kind = PublicKey | Endpoint | AllowedIPs | RouteHosts | RouteHost | NativeNetwork

  /** The keys of a mesh document; applied marks are not part of the render. */
  datatype Key = PeerField(kind: Kind, name: string) | Applied(node: string) | Field(key: string)

  type Data = map<Key, string>

  datatype Forwarding = Forwarding(mesh: string, publicKey: string, transit: bool, data: Data, acked: set<string>)

  datatype Adverts = Adverts(mesh: string, publicKey: string, hash: Data, speaker: string, port: nat,
                             peers: seq<string>)

  /** The speaker's identity, its port, and which addresses a document says are not sites. */
  datatype Setting = Setting(speaker: string, port: nat, notSite: Data -> Option<set<string>>)

  datatype Files = Files(forwarding: Option<Forwarding>, adverts: Option<Adverts>)

  function Render(data: Data): Data {
    map key | key in data && !key.Applied? :: data[key]
  }

  method RenderHash(data: Data) returns (render: Data)
    ensures render == Render(data)
  {
    render := map[];
    var todo := data.Keys;
    while todo != {}
      invariant todo <= data.Keys
      invariant forall key :: key in render <==> key in data && key !in todo && !key.Applied?
      invariant forall key | key in render :: render[key] == data[key]
      decreases |todo|
    {
      var key :| key in todo;
      if !key.Applied? {
        render := render[key := data[key]];
      }
      todo := todo - {key};
    }
  }

  /** What makes the two files one pair. */
  predicate Matching(a: Adverts, f: Forwarding, s: Setting) {
    && a.mesh == f.mesh && a.publicKey == f.publicKey && a.hash == Render(f.data)
    && a.speaker == s.speaker && a.port == s.port
    && s.notSite(f.data).Some? && forall i | 0 <= i < |a.peers| :: a.peers[i] !in s.notSite(f.data).value
  }

  predicate Readable(files: Files, s: Setting) {
    files.forwarding.Some? && files.adverts.Some? && Matching(files.adverts.value, files.forwarding.value, s)
  }

  /**
   A reader accepts the pair exactly when both files are there, of one mesh and key, the hash is
   of this very document without its applied marks, the speaker and port are the reader's own,
   and nothing that is not a site is among the advertised peers.
   */
  lemma ReadableIff(files: Files, s: Setting)
    ensures Readable(files, s) <==>
            match (files.forwarding, files.adverts)
            case (Some(f), Some(a)) =>
              && a.mesh == f.mesh && a.publicKey == f.publicKey
              && (forall key :: key in a.hash <==> key in f.data && !key.Applied?)
              && (forall key | key in a.hash && key in f.data :: a.hash[key] == f.data[key])
              && a.speaker == s.speaker && a.port == s.port
              && (exists others :: s.notSite(f.data) == Some(others)
                                   && forall peer | peer in a.peers :: peer !in others)
            case (_, _) => false
  {
    if files.forwarding.Some? && files.adverts.Some? {
      var f, a := files.forwarding.value, files.adverts.value;
      assert a.hash == Render(f.data) <==>
             && (forall key :: key in a.hash <==> key in f.data && !key.Applied?)
             && (forall key | key in a.hash && key in f.data :: a.hash[key] == f.data[key]);
    }
  }

  // ----- The document without one worker -----

  const Kinds := [PublicKey, Endpoint, AllowedIPs, RouteHosts, RouteHost, NativeNetwork]

  predicate OfPeer(key: Key, name: string) {
    key.PeerField? && key.name == name
  }

  function Without(data: Data, name: string): Data {
    map key | key in data && !OfPeer(key, name) :: data[key]
  }

  predicate Named(data: Data, name: string) {
    exists kind :: PeerField(kind, name) in data
  }

  /** The worker is listed under exactly this key, or not at all. */
  predicate Withdrawable(data: Data, name: string, root: string) {
    var current := PeerField(PublicKey, name);
    name != "" && root != "" && if current in data && data[current] != "" then data[current] == root
      else !Named(data, name)
  }

  lemma EveryKind(kind: Kind)
    ensures kind in Kinds
  {
    match kind
    case PublicKey => assert Kinds[0] == kind;
    case Endpoint => assert Kinds[1] == kind;
    case AllowedIPs => assert Kinds[2] == kind;
    case RouteHosts => assert Kinds[3] == kind;
    case RouteHost => assert Kinds[4] == kind;
    case NativeNetwork => assert Kinds[5] == kind;
  }

  /** Removes one worker's fields and nothing else; refuses a changed key or orphaned fields. */
  method WithdrawRemotePeer(data: Data, name: string, root: string) returns (output: Option<Data>, changed: bool)
    ensures output.Some? <==> Withdrawable(data, name, root)
    ensures output.Some? ==> output.value == Without(data, name)
    ensures changed <==> output.Some? && Named(data, name)
  {
    if name == "" || root == "" {
      return None, false;
    }
    var current := PeerField(PublicKey, name);
    var listed := current in data && data[current] != "";
    if listed && data[current] != root {
      return None, false;
    }
    if !listed {
      for i := 0 to |Kinds|
        invariant forall j | 0 <= j < i :: PeerField(Kinds[j], name) !in data
      {
        if PeerField(Kinds[i], name) in data {
          return None, false;
        }
      }
      assert !Named(data, name) by {
        forall kind ensures PeerField(kind, name) !in data {
          EveryKind(kind);
        }
      }
    }
    var next;
    next, changed := DeleteFields(data, name);
    output := Some(next);
  }

  method DeleteFields(data: Data, name: string) returns (output: Data, changed: bool)
    ensures output == Without(data, name)
    ensures changed <==> Named(data, name)
  {
    output, changed := data, false;
    for i := 0 to |Kinds|
      invariant forall key :: key in output <==> key in data && !(OfPeer(key, name) && key.kind in Kinds[..i])
      invariant forall key | key in output :: output[key] == data[key]
      invariant changed <==> exists j :: 0 <= j < i && PeerField(Kinds[j], name) in data
    {
      assert Kinds[..i + 1] == Kinds[..i] + [Kinds[i]];
      var key := PeerField(Kinds[i], name);
      if key in output {
        output := output - {key};
        changed := true;
      }
    }
    assert Kinds[..|Kinds|] == Kinds;
    forall kind ensures kind in Kinds {
      EveryKind(kind);
    }
    if Named(data, name) {
      var kind :| PeerField(kind, name) in data;
      var j :| 0 <= j < |Kinds| && Kinds[j] == kind;
      assert PeerField(Kinds[j], name) in data;
    }
  }

  lemma WithdrawnIsStable(data: Data, name: string, root: string)
    requires Withdrawable(data, name, root)
    ensures Withdrawable(Without(data, name), name, root) && Without(Without(data, name), name) == Without(data, name)
  {
  }

  /** The render changes exactly when the worker had a field. */
  lemma RenderChangesIff(data: Data, name: string)
    ensures Render(Without(data, name)) == Render(data) <==> !Named(data, name)
  {
    if Named(data, name) {
      var kind :| PeerField(kind, name) in data;
      assert PeerField(kind, name) in Render(data) && PeerField(kind, name) !in Render(Without(data, name));
    } else {
      assert forall key | key in data :: !OfPeer(key, name);
      assert Without(data, name) == data;
    }
  }

  // ----- Preparing the pair -----

  predicate ListedElsewhere(data: Data, root: string) {
    exists key :: key in data && key.PeerField? && key.kind == PublicKey && data[key] == root
  }

  function NextForwarding(f: Forwarding, mesh: string, transit: bool, name: string, root: string): Option<Forwarding> {
    if f.mesh != mesh || f.transit != transit || !Withdrawable(f.data, name, root) ||
      ListedElsewhere(Without(f.data, name), root) then None
    else Some(f.(data := Without(f.data, name), acked := f.acked - {name}))
  }

  /** The advertisement file must match the old or the next document, and then the next. */
  function NextAdverts(a: Adverts, f: Forwarding, next: Forwarding, s: Setting): Option<Adverts> {
    var updated := a.(hash := Render(next.data));
    if (Matching(a, f, s) || Matching(a, next, s)) && Matching(updated, next, s) then Some(updated) else None
  }

  /**
   Both files after a complete withdrawal; without a forwarding file there is nothing to
   withdraw, and an advertisement file needs a speaker to vouch for it.
   */
  function Target(files: Files, mesh: string, transit: bool, name: string, root: string,
      s: Option<Setting>): Option<Files> {
    if files.forwarding.None? then if files.adverts.None? then Some(files) else None
    else
      var next := NextForwarding(files.forwarding.value, mesh, transit, name, root);
      if next.None? then None
      else if files.adverts.None? then Some(Files(next, None))
      else if s.None? then None
      else
        var adverts := NextAdverts(files.adverts.value, files.forwarding.value, next.value, s.value);
        if adverts.None? then None else Some(Files(next, adverts))
  }

  /** Forwarding data without the worker: its fields and its acknowledgement go, nothing else changes. */
  ghost predicate Forgets(before: Forwarding, after: Forwarding, name: string) {
    && after.mesh == before.mesh && after.publicKey == before.publicKey && after.transit == before.transit
    && (forall key :: key in after.data <==> key in before.data && !(key.PeerField? && key.name == name))
    && (forall key | key in after.data :: after.data[key] == before.data[key])
    && (forall n :: n in after.acked <==> n in before.acked && n != name)
  }

  /**
   A withdrawal forgets exactly one worker, after which no worker is listed with its key, and
   rebinds the advertisements to what is left without changing what they advertise.
   */
  lemma TargetForgets(files: Files, mesh: string, transit: bool, name: string, root: string, s: Option<Setting>)
    requires files.forwarding.Some? && Target(files, mesh, transit, name, root, s).Some?
    ensures var f, target := files.forwarding.value, Target(files, mesh, transit, name, root, s).value;
            && f.mesh == mesh && f.transit == transit
            && target.forwarding.Some? && Forgets(f, target.forwarding.value, name)
            && (forall other | PeerField(PublicKey, other) in target.forwarding.value.data ::
                  target.forwarding.value.data[PeerField(PublicKey, other)] != root)
            && (target.adverts.Some? <==> files.adverts.Some?)
            && (files.adverts.Some? ==>
                  target.adverts.value == files.adverts.value.(hash := Render(target.forwarding.value.data)))
  {
  }

  /** What a crash between the two writes leaves. */
  function Half(start: Files, target: Files): Files {
    Files(start.forwarding, target.adverts)
  }

  /** The half-written pair is readable only when it is the pair the withdrawal began with. */
  lemma HalfIsUnreadable(start: Files, target: Files, mesh: string, transit: bool, name: string, root: string,
                         s: Setting)
    requires Target(start, mesh, transit, name, root, Some(s)) == Some(target)
    ensures Readable(Half(start, target), s) ==> Half(start, target) == start
    ensures start.forwarding.Some? && start.adverts.Some? ==>
              (Readable(Half(start, target), s) <==> !Named(start.forwarding.value.data, name))
  {
    if start.forwarding.Some? {
      var data := start.forwarding.value.data;
      RenderChangesIff(data, name);
      if !Named(data, name) {
        assert forall key | key in data :: !OfPeer(key, name);
        assert Without(data, name) == data;
      }
    }
  }

  /** Documents without two different listed workers render differently. */
  lemma RendersDiffer(data: Data, a: string, b: string)
    requires Named(data, b) && a != b
    ensures Render(Without(data, b)) != Render(data)
    ensures Render(Without(data, b)) != Render(Without(data, a))
  {
    RenderChangesIff(data, b);
    var kind :| PeerField(kind, b) in data;
    assert PeerField(kind, b) in Render(Without(data, a)) && PeerField(kind, b) !in Render(Without(data, b));
  }

  /** A pair half-written for one listed worker refuses the withdrawal of every other. */
  lemma HalfRefusesOthers(start: Files, target: Files, mesh: string, transit: bool, name: string, root: string,
                          s: Setting, other: string, otherRoot: string)
    requires Target(start, mesh, transit, name, root, Some(s)) == Some(target)
    requires start.forwarding.Some? && start.adverts.Some? && Named(start.forwarding.value.data, name) && other != name
    ensures Target(Half(start, target), mesh, transit, other, otherRoot, Some(s)).None?
  {
    RendersDiffer(start.forwarding.value.data, other, name);
  }

  lemma NextIsStable(f: Forwarding, mesh: string, transit: bool, name: string, root: string)
    requires NextForwarding(f, mesh, transit, name, root).Some?
    ensures var next := NextForwarding(f, mesh, transit, name, root).value;
            NextForwarding(next, mesh, transit, name, root) == Some(next)
  {
    WithdrawnIsStable(f.data, name, root);
    assert f.acked - {name} - {name} == f.acked - {name};
  }

  /** From each crash state a retry has the same target. */
  lemma RetryReachesTarget(start: Files, target: Files, mesh: string, transit: bool, name: string, root: string,
                           s: Option<Setting>)
    requires Target(start, mesh, transit, name, root, s) == Some(target)
    ensures Target(Half(start, target), mesh, transit, name, root, s) == Some(target)
    ensures Target(target, mesh, transit, name, root, s) == Some(target)
    ensures target.adverts.Some? ==> s.Some? && Readable(target, s.value)
  {
    if start.forwarding.Some? {
      NextIsStable(start.forwarding.value, mesh, transit, name, root);
    }
  }

  // ----- The commit -----

  class SiteFiles {
    var files: Files
    /** Every state a crash could have exposed so far, the present one last. */
    ghost var trace: seq<Files>
    /** How many writes have failed. */
    ghost var faults: nat

    constructor (files: Files)
      ensures this.files == files && trace == [files]
    {
      this.files := files;
      faults := 0;
      trace := [files];
    }

    method Write(next: Files) returns (ok: bool)
      requires next == files.(adverts := next.adverts) || next == files.(forwarding := next.forwarding)
      modifies this
      ensures if ok then files == next && trace == old(trace) + [next] && faults == old(faults)
              else files == old(files) && trace == old(trace) && faults > old(faults)
    {
      ok := *;
      if ok {
        files := next;
        trace := trace + [next];
      } else {
        faults := faults + 1;
      }
    }

    /**
     Prepares and commits one withdrawal. Whatever step it stops at, each state it exposed is the
     start, the target, or a half pair that no reader accepts.
     */
    method Withdraw(mesh: string, transit: bool, name: string, root: string, s: Option<Setting>) returns (ok: bool)
      modifies this
      ensures old(trace) <= trace
      ensures var target := Target(old(files), mesh, transit, name, root, s);
              if target.None? then !ok && files == old(files) && trace == old(trace)
              else
                && Exposed(trace[|old(trace)|..], old(files), target.value, s)
                && (if faults == old(faults) then ok && files == target.value else !ok)
    {
      if files.forwarding.None? {
        return files.adverts.None?;
      }
      var saved := files.forwarding.value;
      if saved.mesh != mesh || saved.transit != transit {
        return false;
      }
      var data, changed := WithdrawRemotePeer(saved.data, name, root);
      if data.None? || ListedElsewhere(data.value, root) {
        return false;
      }
      var next := saved.(data := data.value, acked := saved.acked - {name});
      var adverts: Option<Adverts> := None;
      if files.adverts.Some? {
        if s.None? {
          return false;
        }
        adverts := NextAdverts(files.adverts.value, saved, next, s.value);
        if adverts.None? {
          return false;
        }
      }
      ghost var target := Files(Some(next), adverts);
      assert Target(files, mesh, transit, name, root, s) == Some(target);
      if s.Some? {
        HalfIsUnreadable(files, target, mesh, transit, name, root, s.value);
      }
      ok := Commit(next, adverts, s);
    }

    method Commit(forwarding: Forwarding, adverts: Option<Adverts>, ghost s: Option<Setting>) returns (ok: bool)
      requires adverts.Some? ==> s.Some?
      requires s.Some? && Readable(Files(files.forwarding, adverts), s.value) ==>
                 Files(files.forwarding, adverts) == files
      requires adverts.None? ==> files.adverts.None?
      modifies this
      ensures old(trace) <= trace
      ensures Exposed(trace[|old(trace)|..], old(files), Files(Some(forwarding), adverts), s)
      ensures if faults == old(faults) then ok && files == Files(Some(forwarding), adverts) else !ok
    {
      if adverts.Some? {
        ok := Write(files.(adverts := adverts));
        if !ok {
          return;
        }
      }
      ok := Write(files.(forwarding := Some(forwarding)));
    }
  }

  /** Every state is the start, the target, or a half pair that no reader accepts. */
  ghost predicate Exposed(states: seq<Files>, start: Files, target: Files, s: Option<Setting>) {
    forall i | 0 <= i < |states| ::
      || states[i] == start || states[i] == target
      || (states[i] == Half(start, target) && s.Some? && !Readable(states[i], s.value))
  }

  // ----- Which worker has a key -----

  /** The keys of all listed workers. */
  function Roots(data: Data): set<string> {
    set key | key in data && key.PeerField? && key.kind == PublicKey :: data[key]
  }

  predicate HeldBy(data: Data, name: string, root: string) {
    PeerField(PublicKey, name) in data && data[PeerField(PublicKey, name)] == root
  }

  lemma HeldIffListed(data: Data, root: string)
    ensures root in Roots(data) <==> exists name :: HeldBy(data, name, root)
  {
    if root in Roots(data) {
      var key :| key in data && key.PeerField? && key.kind == PublicKey && data[key] == root;
      assert key == PeerField(PublicKey, key.name) && HeldBy(data, key.name, root);
    }
  }

  datatype Holder = Nobody | Only(name: string) | Ambiguous

  ghost predicate IsHolder(data: Data, root: string, holder: Holder) {
    match holder
    case Nobody => root !in Roots(data)
    case Only(name) => HeldBy(data, name, root) && forall other | HeldBy(data, other, root) :: other == name
    case Ambiguous => exists a, b :: a != b && HeldBy(data, a, root) && HeldBy(data, b, root)
  }

  ghost function HolderOf(data: Data, root: string): Holder {
    if exists a, b :: a != b && HeldBy(data, a, root) && HeldBy(data, b, root) then Ambiguous
    else if exists name :: HeldBy(data, name, root) then
      var name :| HeldBy(data, name, root);
      Only(name)
    else Nobody
  }

  lemma HolderIsUnique(data: Data, root: string, holder: Holder)
    ensures IsHolder(data, root, holder) <==> holder == HolderOf(data, root)
  {
    HeldIffListed(data, root);
  }

  /** Searches the whole document for the worker with this key. */
  method FindHolder(data: Data, root: string) returns (holder: Holder)
    ensures IsHolder(data, root, holder)
  {
    holder := Nobody;
    var todo := data.Keys;
    while todo != {}
      invariant todo <= data.Keys && !holder.Ambiguous?
      invariant holder.Nobody? ==> forall name | HeldBy(data, name, root) :: PeerField(PublicKey, name) in todo
      invariant holder.Only? ==> HeldBy(data, holder.name, root)
      invariant holder.Only? ==>
                  forall name | HeldBy(data, name, root) :: name == holder.name || PeerField(PublicKey, name) in todo
      decreases |todo|
    {
      var key :| key in todo;
      todo := todo - {key};
      if key.PeerField? && key.kind == PublicKey && data[key] == root {
        assert key == PeerField(PublicKey, key.name) && HeldBy(data, key.name, root);
        if holder.Only? && holder.name != key.name {
          return Ambiguous;
        }
        holder := Only(key.name);
      }
    }
    HeldIffListed(data, root);
  }

  /** A worker that can be withdrawn from a document that lists it is its key's only holder. */
  lemma WithdrawnIsOnlyHolder(f: Forwarding, mesh: string, transit: bool, name: string, root: string)
    requires NextForwarding(f, mesh, transit, name, root).Some?
    ensures root !in Roots(NextForwarding(f, mesh, transit, name, root).value.data)
    ensures Roots(NextForwarding(f, mesh, transit, name, root).value.data) <= Roots(f.data)
    ensures Named(f.data, name) ==> IsHolder(f.data, root, Only(name))
  {
    var next := Without(f.data, name);
    assert forall other | HeldBy(next, other, root) :: ListedElsewhere(next, root);
    HeldIffListed(next, root);
    assert forall other | HeldBy(f.data, other, root) && other != name :: HeldBy(next, other, root);
    forall r | r in Roots(next)
      ensures r in Roots(f.data)
    {
      HeldIffListed(next, r);
      var other :| HeldBy(next, other, r);
      assert HeldBy(f.data, other, r);
      HeldIffListed(f.data, r);
    }
  }
}
