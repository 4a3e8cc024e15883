/** internal/p2p/handler.go on real stores: each handler works on one node's files and its
    registry handle, and does to them what Network's step does to that node's slots. */
module Handlers {
  import opened Base
  import opened Foreign
  import opened Paths
  import BuddyStore
  import Registry
  import Network

  type Files = BuddyStore.Files

  function SlotOf(node: string, r: Ref): Network.Slot { Network.Slot(node, r.owner, r.fileId, r.index) }

  function RefOf(slot: Network.Slot): Ref { Ref(slot.owner, slot.fileId, slot.index) }

  /** The node's slot for r is the shard file and its sidecar, which come and go together. */
  ghost predicate SameSlot(s: Network.State, node: string, files: Files, r: Ref)
    requires Proper(r)
  {
    var slot, p, hp := SlotOf(node, r), ShardPath(r).value, HashPath(r).value;
    && (slot in s.cells <==> p in files) && (slot in s.cells <==> hp in files)
    && (slot in s.cells ==> s.cells[slot].data == files[p] && s.cells[slot].sum == files[hp])
  }

  ghost predicate SameManifest(s: Network.State, node: string, files: Files, owner: string)
    requires Safe(owner)
  {
    var p := ManifestPath(owner).value;
    && ((node, owner) in s.manifests <==> p in files)
    && ((node, owner) in s.manifests ==> s.manifests[(node, owner)] == files[p])
  }

  ghost predicate ProperSlots(s: Network.State, node: string) {
    forall slot :: slot in s.cells && slot.node == node ==> Proper(RefOf(slot))
  }

  ghost predicate SameFiles(s: Network.State, node: string, files: Files) {
    && BuddyStore.OwnNames(files) && ProperSlots(s, node)
    && (forall r: Ref :: Proper(r) ==> SameSlot(s, node, files, r))
    && (forall owner: string :: Safe(owner) ==> SameManifest(s, node, files, owner))
  }

  ghost predicate SameRegistry(s: Network.State, node: string, known: Registry.Buddies) {
    && node in s.registries && s.registries[node].Keys == known.Keys
    && forall id :: id in known ==> s.registries[node][id] == Network.RegEntry(known[id].pubKey)
  }

  /** The files and the registry are node `node` of the state. */
  ghost predicate Represents(s: Network.State, node: string, files: Files, known: Registry.Buddies) {
    SameFiles(s, node, files) && SameRegistry(s, node, known)
  }

  function AllowedBy(w: Network.World, known: Registry.Buddies, remote: string): bool {
    remote in known && (known[remote].pubKey == [] || known[remote].pubKey == w.keyOf(remote))
  }

  method CheckBuddyAuth(w: Network.World, reg: Registry.Handle, remote: string) returns (ok: bool)
    requires reg.Valid()
    modifies reg
    ensures reg.Valid() && ok == AllowedBy(w, Registry.Known(reg.file.content), remote)
    ensures ok <==> remote in Registry.Known(reg.file.content)
                    && Registry.Known(reg.file.content)[remote].pubKey in [[], w.keyOf(remote)]
  {
    var entry := reg.Get(remote);
    if entry.None? {
      return false;
    }
    if entry.value.pubKey == [] {
      return true;
    }
    ok := entry.value.pubKey == w.keyOf(remote);
  }

  /** handleShard. */
  method HandleShard(w: Network.World, at: string, store: BuddyStore.Store, reg: Registry.Handle,
                     from: string, push: Ref, data: bytes) returns (reply: Network.Reply)
    requires reg.Valid() && w.lib == store.lib && -INT64 <= push.index < INT64
    modifies store, reg
    ensures reg.Valid()
    ensures forall s :: Represents(s, at, old(store.files), Registry.Known(reg.file.content)) ==>
      var (s', answer) := Network.HandlePush(w, s, from, at, push.owner, push.fileId, push.index, data);
      reply == answer && Represents(s', at, store.files, Registry.Known(reg.file.content))
  {
    hide *;
    ghost var files, known := store.files, Registry.Known(reg.file.content);
    var allowed := CheckBuddyAuth(w, reg, from);
    if !allowed || push.owner != from {
      reply := Network.Ack(false);
      PushRefused(w, at, files, known, from, push, data);
      return;
    }
    var ok := store.PutWithHash(push, data);
    reply := Network.Ack(ok);
    PushStored(w, at, files, known, from, push, data);
  }

  lemma Allowed(w: Network.World, s: Network.State, at: string, known: Registry.Buddies, remote: string)
    requires SameRegistry(s, at, known)
    ensures Network.Auth(w, s, at, remote) <==> AllowedBy(w, known, remote)
  {
  }

  lemma PushRefused(w: Network.World, at: string, files: Files, known: Registry.Buddies, from: string, push: Ref, data: bytes)
    requires !AllowedBy(w, known, from) || push.owner != from
    ensures forall s :: Represents(s, at, files, known) ==>
      Network.HandlePush(w, s, from, at, push.owner, push.fileId, push.index, data) == (s, Network.Ack(false))
  {
    forall s | Represents(s, at, files, known)
      ensures Network.HandlePush(w, s, from, at, push.owner, push.fileId, push.index, data) == (s, Network.Ack(false))
    {
      Allowed(w, s, at, known, from);
    }
  }

  /** The store takes the shard exactly when the step does. */
  lemma StorableIff(lib: Lib, s: Network.State, at: string, files: Files, r: Ref, data: bytes)
    requires SameFiles(s, at, files) && -INT64 <= r.index < INT64
    ensures Network.Storable(s, SlotOf(at, r)) <==> BuddyStore.Stored(lib, files, r, data).Some?
  {
    hide Safe, BuddyStore.Blocked, BuddyStore.OwnNames, ManifestPath, SameSlot;
    if Proper(r) {
      BuddyStore.ShardBlockedIff(files, r);
      assert SameManifest(s, at, files, r.owner);
    }
  }

  lemma PushStored(w: Network.World, at: string, files: Files, known: Registry.Buddies, from: string, push: Ref, data: bytes)
    requires AllowedBy(w, known, from) && push.owner == from && -INT64 <= push.index < INT64
    ensures forall s :: Represents(s, at, files, known) ==>
      var (s', answer) := Network.HandlePush(w, s, from, at, push.owner, push.fileId, push.index, data);
      var stored := BuddyStore.Stored(w.lib, files, push, data);
      answer == Network.Ack(stored.Some?) && Represents(s', at, if stored.Some? then stored.value else files, known)
  {
    hide SameFiles, SameRegistry, ShardPath, HashPath, BuddyStore.Stored, Network.Storable;
    forall s | Represents(s, at, files, known)
      ensures var (s', answer) := Network.HandlePush(w, s, from, at, push.owner, push.fileId, push.index, data);
        var stored := BuddyStore.Stored(w.lib, files, push, data);
        answer == Network.Ack(stored.Some?) && Represents(s', at, if stored.Some? then stored.value else files, known)
    {
      Allowed(w, s, at, known, from);
      StorableIff(w.lib, s, at, files, push, data);
      if BuddyStore.Stored(w.lib, files, push, data).Some? {
        var given := Network.Supply(data, s.clock);
        PutKeepsFiles(w, s, at, files, push, given);
        KeepsRegistry(s, Network.PutWithHash(w, s, SlotOf(at, push), given), at, known);
      }
    }
  }

  lemma KeepsRegistry(s: Network.State, s': Network.State, at: string, known: Registry.Buddies)
    requires SameRegistry(s, at, known) && s'.registries == s.registries
    ensures SameRegistry(s', at, known)
  {
  }

  lemma PutKeepsFiles(w: Network.World, s: Network.State, at: string, files: Files, r: Ref, given: Network.Supply)
    requires SameFiles(s, at, files) && -INT64 <= r.index < INT64 && BuddyStore.Stored(w.lib, files, r, given.data).Some?
    ensures SameFiles(Network.PutWithHash(w, s, SlotOf(at, r), given), at, BuddyStore.Stored(w.lib, files, r, given.data).value)
  {
    hide ShardPath, HashPath, ManifestPath, Safe, BuddyStore.Blocked, BuddyStore.OwnNames;
    BuddyStore.SafeHasPaths(r, "");
    BuddyStore.WritesKeepNames(w.lib, files, r, given.data, "");
    var s', files' := Network.PutWithHash(w, s, SlotOf(at, r), given), BuddyStore.Stored(w.lib, files, r, given.data).value;
    forall q: Ref | Proper(q) ensures SameSlot(s', at, files', q) {
      assert SameSlot(s, at, files, q);
      BuddyStore.SafeHasPaths(q, "");
      PathsAreDistinct(r, q);
      PathsAreDistinct(q, r);
    }
    forall owner: string | Safe(owner) ensures SameManifest(s', at, files', owner) {
      assert SameManifest(s, at, files, owner);
      ManifestPathsAreDistinct(r, owner, owner);
    }
  }

  /** handlePull. */
  method HandlePull(w: Network.World, at: string, store: BuddyStore.Store, reg: Registry.Handle, from: string, req: Ref)
    returns (reply: Network.Reply)
    requires reg.Valid() && -INT64 <= req.index < INT64
    modifies reg
    ensures reg.Valid()
    ensures forall s :: Represents(s, at, store.files, Registry.Known(reg.file.content)) ==>
      reply == Network.HandlePull(w, s, from, at, req.owner, req.fileId, req.index)
  {
    hide *;
    ghost var known := Registry.Known(reg.file.content);
    var allowed := CheckBuddyAuth(w, reg, from);
    var data := None;
    if allowed && (req.owner == from || req.owner == at) {
      data := store.Get(req);
    }
    reply := if data.Some? then Network.Found(data.value) else Network.NotFound;
    forall s | Represents(s, at, store.files, known)
      ensures reply == Network.HandlePull(w, s, from, at, req.owner, req.fileId, req.index)
    {
      PullAnswers(w, s, at, store.files, known, from, req);
    }
  }

  lemma PullAnswers(w: Network.World, s: Network.State, at: string, files: Files, known: Registry.Buddies, from: string, req: Ref)
    requires Represents(s, at, files, known) && -INT64 <= req.index < INT64
    ensures Network.HandlePull(w, s, from, at, req.owner, req.fileId, req.index)
         == if AllowedBy(w, known, from) && (req.owner == from || req.owner == at)
               && ShardPath(req).Some? && ShardPath(req).value in files
            then Network.Found(files[ShardPath(req).value]) else Network.NotFound
  {
    hide SameRegistry, FileName;
    Allowed(w, s, at, known, from);
    if Proper(req) {
      assert SameSlot(s, at, files, req);
    }
  }

  /** handleManifest, for a push. */
  method HandleManifestPush(w: Network.World, at: string, store: BuddyStore.Store, reg: Registry.Handle,
                            from: string, owner: string, data: bytes) returns (reply: Network.Reply)
    requires reg.Valid()
    modifies store, reg
    ensures reg.Valid()
    ensures forall s :: Represents(s, at, old(store.files), Registry.Known(reg.file.content)) ==>
      var (s', answer) := Network.HandleManifestPush(w, s, from, at, owner, data);
      reply == answer && Represents(s', at, store.files, Registry.Known(reg.file.content))
  {
    hide *;
    ghost var files, known := store.files, Registry.Known(reg.file.content);
    var allowed := CheckBuddyAuth(w, reg, from);
    reply := Network.NoReply;
    if allowed {
      var ok := false;
      if owner == from {
        ok := store.PutManifest(owner, data);
      }
      reply := Network.Ack(ok);
    }
    forall s | Represents(s, at, files, known)
      ensures var (s', answer) := Network.HandleManifestPush(w, s, from, at, owner, data);
        reply == answer && Represents(s', at, store.files, known)
    {
      ManifestPushed(w, s, at, files, known, from, owner, data);
    }
  }

  /** The manifest's name is taken by a shard directory exactly when the step says so. */
  lemma ManifestClashIff(s: Network.State, at: string, files: Files, owner: string)
    requires SameFiles(s, at, files) && Safe(owner)
    ensures Network.ManifestClash(s, at, owner) <==> BuddyStore.Blocked(files, ManifestPath(owner).value)
  {
    hide Safe, BuddyStore.Blocked, BuddyStore.OwnNames, ManifestPath, ShardPath, HashPath;
    BuddyStore.ManifestBlockedIff(files, owner);
    if Network.ManifestClash(s, at, owner) {
      var slot :| slot in s.cells && slot.node == at && slot.owner == owner && slot.fileId == MANIFEST;
      var r := RefOf(slot);
      assert SameSlot(s, at, files, r);
      assert BuddyStore.OfManifestName(ShardPath(r).value, r, owner);
    }
    if p: string, r: Ref :| p in files && BuddyStore.OfManifestName(p, r, owner) {
      assert SameSlot(s, at, files, r);
      assert SlotOf(at, r) in s.cells;
    }
  }

  lemma ManifestPushed(w: Network.World, s: Network.State, at: string, files: Files, known: Registry.Buddies,
                       from: string, owner: string, data: bytes)
    requires Represents(s, at, files, known)
    ensures var (s', answer) := Network.HandleManifestPush(w, s, from, at, owner, data);
      var stored := BuddyStore.StoredManifest(files, owner, data);
      var stores := AllowedBy(w, known, from) && owner == from && stored.Some?;
      && answer == (if AllowedBy(w, known, from) then Network.Ack(stores) else Network.NoReply)
      && Represents(s', at, if stores then stored.value else files, known)
  {
    hide SameRegistry, SameFiles, BuddyStore.Blocked, Network.ManifestClash;
    Allowed(w, s, at, known, from);
    if Safe(owner) {
      ManifestClashIff(s, at, files, owner);
    }
    if AllowedBy(w, known, from) && owner == from && BuddyStore.StoredManifest(files, owner, data).Some? {
      var s' := s.(manifests := s.manifests[(at, owner) := data]);
      KeepsRegistry(s, s', at, known);
      ManifestKeepsFiles(s, at, files, owner, data);
    }
  }

  lemma ManifestKeepsFiles(s: Network.State, at: string, files: Files, owner: string, data: bytes)
    requires SameFiles(s, at, files) && BuddyStore.StoredManifest(files, owner, data).Some?
    ensures SameFiles(s.(manifests := s.manifests[(at, owner) := data]), at, BuddyStore.StoredManifest(files, owner, data).value)
  {
    hide ShardPath, HashPath, ManifestPath, Proper, Safe, BuddyStore.Blocked, BuddyStore.OwnNames;
    var s' := s.(manifests := s.manifests[(at, owner) := data]);
    BuddyStore.WritesKeepNames(TOY, files, Ref("", "", 0), data, owner);
    var files' := BuddyStore.StoredManifest(files, owner, data).value;
    forall q: Ref | Proper(q) ensures SameSlot(s', at, files', q) {
      assert SameSlot(s, at, files, q);
      BuddyStore.SafeHasPaths(q, owner);
      ManifestPathsAreDistinct(q, owner, owner);
    }
    forall o: string | Safe(o) ensures SameManifest(s', at, files', o) {
      assert SameManifest(s, at, files, o);
      DistinctManifests(owner, o);
    }
  }

  lemma DistinctManifests(a: string, b: string)
    requires Safe(a) && Safe(b)
    ensures a != b ==> ManifestPath(a) != ManifestPath(b)
  {
    ManifestPathsAreDistinct(Ref(a, a, 0), a, b);
  }

  /** handleManifest, for a request. */
  method HandleManifestPull(w: Network.World, at: string, store: BuddyStore.Store, reg: Registry.Handle, from: string, owner: string)
    returns (reply: Network.Reply)
    requires reg.Valid()
    modifies reg
    ensures reg.Valid()
    ensures forall s :: Represents(s, at, store.files, Registry.Known(reg.file.content)) ==>
      reply == Network.HandleManifestPull(w, s, from, at, owner)
  {
    ghost var known := Registry.Known(reg.file.content);
    var allowed := CheckBuddyAuth(w, reg, from);
    reply := Network.NoReply;
    if allowed {
      reply := Network.NotFound;
      if owner == from {
        var data := store.GetManifest(owner);
        if data.Some? {
          reply := Network.Found(data.value);
        }
      }
    }
    hide SameRegistry, SameSlot, ManifestPath, Safe;
    forall s | Represents(s, at, store.files, known) ensures reply == Network.HandleManifestPull(w, s, from, at, owner) {
      Allowed(w, s, at, known, from);
      if Safe(owner) {
        assert SameManifest(s, at, store.files, owner);
      }
    }
  }

  /** A shard passes the store's check if and only if its slot passes the step machine's. */
  lemma VerifyAlike(w: Network.World, s: Network.State, at: string, files: Files, r: Ref)
    requires SameFiles(s, at, files) && Proper(r)
    ensures Network.Verify(w, s, SlotOf(at, r)) <==> BuddyStore.Verified(w.lib, files, r)
  {
    hide ShardPath, HashPath, BuddyStore.OwnNames;
    BuddyStore.SafeHasPaths(r, "");
    assert SameSlot(s, at, files, r);
  }
}
