/** internal/p2p handlers and the scrub's revive, over the buddy stores of many nodes.
    A message is handled in one step; a revive takes three, with anything in between. */
module Network {
  import opened Base
  import opened Foreign
  import opened Paths

  type Node = string

  /** A node's buddy store slot for one shard of one owner. */
  datatype Slot = Slot(node: Node, owner: string, fileId: string, index: int)

  /** Data, and the step at which its owner handed it out. */
  datatype Supply = Supply(data: bytes, at: nat)

  /** A stored shard and its sidecar hash. `supplied` is history: the step at which the
      owner handed the data out; no file keeps it. */
  datatype Cell = Cell(data: bytes, sum: bytes, supplied: nat)

  datatype RegEntry = RegEntry(pubKey: bytes)

  /** A revive that found its slot corrupted, and what the owner answered, if it has. */
  datatype Flight = Flight(slot: Slot, fetched: Option<Supply>)

  datatype State = State(cells: map<Slot, Cell>, manifests: map<(Node, string), bytes>,
                         registries: map<Node, map<Node, RegEntry>>,
                         revives: map<nat, Flight>, clock: nat)

  /** SHA-256, and the public key inside an Ed25519 peer ID. */
  datatype World = World(lib: Lib, keyOf: Node -> bytes)

  datatype Reply = NoReply | Ack(ok: bool) | Found(data: bytes) | NotFound

  datatype Step =
    | Push(from: Node, to: Node, owner: string, fileId: string, index: int, data: bytes)
    | Pull(from: Node, to: Node, owner: string, fileId: string, index: int)
    | ManifestPush(from: Node, to: Node, owner: string, data: bytes)
    | ManifestPull(from: Node, to: Node, owner: string)
    | ReviveCheck(id: nat, slot: Slot)  // a scrub verifies the slot
    | ReviveFetch(id: nat)              // it asks the owner
    | ReviveStore(id: nat)              // it stores what the owner answered
    | ReviveDrop(id: nat)               // it gives up
    | Rot(slot: Slot, data: bytes)      // the disk changed under the store
    | SetRegistry(node: Node, registry: map<Node, RegEntry>)

  /** checkBuddyAuth: registered, and the stored key, if any, is the peer's own. */
  predicate Auth(w: World, s: State, at: Node, remote: Node) {
    && at in s.registries && remote in s.registries[at]
    && var key := s.registries[at][remote].pubKey;
       key == [] || key == w.keyOf(remote)
  }

  /** The owner's manifest file bars a shard directory of its name, and the other way round. */
  predicate Clash(s: State, slot: Slot) {
    slot.fileId == MANIFEST && (slot.node, slot.owner) in s.manifests
  }

  predicate ManifestClash(s: State, at: Node, owner: string) {
    exists slot :: slot in s.cells && slot.node == at && slot.owner == owner && slot.fileId == MANIFEST
  }

  predicate Storable(s: State, slot: Slot) {
    Safe(slot.owner) && Safe(slot.fileId) && !Clash(s, slot)
  }

  function PutWithHash(w: World, s: State, slot: Slot, given: Supply): State {
    s.(cells := s.cells[slot := Cell(given.data, w.lib.sha(given.data), given.at)])
  }

  predicate Verify(w: World, s: State, slot: Slot) {
    slot in s.cells && w.lib.sha(s.cells[slot].data) == s.cells[slot].sum
  }

  /** handleShard. */
  function HandlePush(w: World, s: State, from: Node, to: Node, owner: string, fileId: string, index: int, data: bytes)
    : (State, Reply)
  {
    var slot := Slot(to, owner, fileId, index);
    if !Auth(w, s, to, from) then (s, Ack(false))
    else if owner != from then (s, Ack(false))
    else if !Storable(s, slot) then (s, Ack(false))
    else (PutWithHash(w, s, slot, Supply(data, s.clock)), Ack(true))
  }

  /** handlePull: only one's own shards, or shards the asked node itself owns. */
  function HandlePull(w: World, s: State, from: Node, to: Node, owner: string, fileId: string, index: int): Reply {
    if !Auth(w, s, to, from) then NotFound
    else if owner != from && owner != to then NotFound
    else if !Safe(owner) || !Safe(fileId) then NotFound
    else
      var slot := Slot(to, owner, fileId, index);
      if slot in s.cells then Found(s.cells[slot].data) else NotFound
  }

  function HandleManifestPush(w: World, s: State, from: Node, to: Node, owner: string, data: bytes): (State, Reply) {
    if !Auth(w, s, to, from) then (s, NoReply)
    else if owner != from || !Safe(owner) || ManifestClash(s, to, owner) then (s, Ack(false))
    else (s.(manifests := s.manifests[(to, owner) := data]), Ack(true))
  }

  function HandleManifestPull(w: World, s: State, from: Node, to: Node, owner: string): Reply {
    if !Auth(w, s, to, from) then NoReply
    else if owner != from || !Safe(owner) then NotFound
    else if (to, owner) in s.manifests then Found(s.manifests[(to, owner)]) else NotFound
  }

  /** RunOnce on a listed shard: only one that fails its hash starts a revive. */
  function StartRevive(w: World, s: State, id: nat, slot: Slot): (State, Reply) {
    if id in s.revives || slot !in s.cells || Verify(w, s, slot) then (s, Ack(false))
    else (s.(revives := s.revives[id := Flight(slot, None)]), Ack(true))
  }

  /** The owner's answer to a revive of the slot. */
  function Asked(w: World, s: State, slot: Slot): Reply {
    HandlePull(w, s, slot.node, slot.owner, slot.owner, slot.fileId, slot.index)
  }

  function FetchRevive(w: World, s: State, id: nat): (State, Reply) {
    if id !in s.revives || s.revives[id].fetched.Some? then (s, NoReply)
    else match Asked(w, s, s.revives[id].slot)
      case Found(data) =>
        (s.(revives := s.revives[id := s.revives[id].(fetched := Some(Supply(data, s.clock)))]), Found(data))
      case _ => (s.(revives := s.revives - {id}), NotFound)
  }

  function StoreRevive(w: World, s: State, id: nat): (State, Reply) {
    if id !in s.revives || s.revives[id].fetched.None? then (s, NoReply)
    else
      var f, done := s.revives[id], s.(revives := s.revives - {id});
      if !Storable(s, f.slot) then (done, Ack(false))
      else (PutWithHash(w, done, f.slot, f.fetched.value), Ack(true))
  }

  function Act(w: World, s: State, step: Step): (State, Reply) {
    match step
    case Push(from, to, owner, fileId, index, data) => HandlePush(w, s, from, to, owner, fileId, index, data)
    case Pull(from, to, owner, fileId, index) => (s, HandlePull(w, s, from, to, owner, fileId, index))
    case ManifestPush(from, to, owner, data) => HandleManifestPush(w, s, from, to, owner, data)
    case ManifestPull(from, to, owner) => (s, HandleManifestPull(w, s, from, to, owner))
    case ReviveCheck(id, slot) => StartRevive(w, s, id, slot)
    case ReviveFetch(id) => FetchRevive(w, s, id)
    case ReviveStore(id) => StoreRevive(w, s, id)
    case ReviveDrop(id) => (s.(revives := s.revives - {id}), NoReply)
    case Rot(slot, data) =>
      (if slot in s.cells then s.(cells := s.cells[slot := s.cells[slot].(data := data)]) else s, NoReply)
    case SetRegistry(node, registry) => (s.(registries := s.registries[node := registry]), NoReply)
  }

  function Apply(w: World, s: State, step: Step): (State, Reply) {
    (Act(w, s, step).0.(clock := s.clock + 1), Act(w, s, step).1)
  }

  ghost predicate IsRun(w: World, states: seq<State>, steps: seq<Step>) {
    && |states| == |steps| + 1
    && states[0].cells == map[] && states[0].manifests == map[] && states[0].revives == map[] && states[0].clock == 0
    && forall i :: 0 <= i < |steps| ==> states[i + 1] == Apply(w, states[i], steps[i]).0
  }

  lemma {:induction false} ClockIsIndex(w: World, states: seq<State>, steps: seq<Step>, i: nat)
    requires IsRun(w, states, steps) && i < |states|
    ensures states[i].clock == i
  {
    if i > 0 {
      ClockIsIndex(w, states, steps, i - 1);
      assert states[i - 1 + 1] == Apply(w, states[i - 1], steps[i - 1]).0;
    }
  }

  // ---- Who can change a slot -----------------------------------------------

  /** What `step` taken in `s` writes to `slot` for its owner, if it does: a push the owner
      sent and saw acknowledged, or what the owner answered to a revive. */
  function OwnerWrite(w: World, s: State, step: Step, slot: Slot): Option<Supply> {
    match step
    case Push(from, to, owner, fileId, index, data) =>
      if from == owner && Slot(to, owner, fileId, index) == slot && Act(w, s, step).1 == Ack(true)
      then Some(Supply(data, s.clock)) else None
    case ReviveStore(id) =>
      if id in s.revives && s.revives[id].slot == slot && Act(w, s, step).1 == Ack(true)
      then s.revives[id].fetched else None
    case _ => None
  }

  predicate SameAt<K, V(==)>(a: map<K, V>, b: map<K, V>, k: K) {
    (k in a <==> k in b) && (k in a ==> a[k] == b[k])
  }

  function CellOf(w: World, given: Supply): Cell { Cell(given.data, w.lib.sha(given.data), given.at) }

  /** A slot's data changes only for its owner, or when the disk rots. */
  lemma OnlyOwnerChangesSlot(w: World, s: State, step: Step, slot: Slot)
    ensures var s' := Apply(w, s, step).0;
      match OwnerWrite(w, s, step, slot)
      case Some(given) => slot in s'.cells && s'.cells[slot] == CellOf(w, given)
      case None => SameAt(s.cells, s'.cells, slot) || (step.Rot? && step.slot == slot && slot in s.cells)
    ensures slot in s.cells ==> slot in Apply(w, s, step).0.cells
  {
  }

  ghost predicate NoRot(steps: seq<Step>, slot: Slot, i: nat, j: nat)
    requires i <= j <= |steps|
  {
    forall k :: i <= k < j ==> !(steps[k].Rot? && steps[k].slot == slot)
  }

  /** Step k in [i, j) wrote `given` for the slot's owner, and no later step before j wrote it again. */
  ghost predicate LastOwnerWrite(w: World, states: seq<State>, steps: seq<Step>, slot: Slot, given: Supply, i: nat, k: nat, j: nat)
    requires j < |states| == |steps| + 1
  {
    && i <= k < j && OwnerWrite(w, states[k], steps[k], slot) == Some(given)
    && forall m :: k < m < j ==> OwnerWrite(w, states[m], steps[m], slot) == None
  }

  lemma {:induction false} SlotHoldsLastWrite(w: World, states: seq<State>, steps: seq<Step>, slot: Slot, i: nat, j: nat)
    returns (k: nat, given: Supply)
    requires IsRun(w, states, steps) && i < j < |states| && NoRot(steps, slot, i, j)
    requires OwnerWrite(w, states[i], steps[i], slot).Some?
    ensures slot in states[j].cells && states[j].cells[slot] == CellOf(w, given)
    ensures LastOwnerWrite(w, states, steps, slot, given, i, k, j)
  {
    hide Apply, OwnerWrite;
    var latest := OwnerWrite(w, states[j - 1], steps[j - 1], slot);
    OnlyOwnerChangesSlot(w, states[j - 1], steps[j - 1], slot);
    if latest.Some? {
      k, given := j - 1, latest.value;
    } else {
      k, given := SlotHoldsLastWrite(w, states, steps, slot, i, j - 1);
    }
  }

  /** The owner handed the data out for this slot at step t: it pushed it there, or answered a revive with it. */
  ghost predicate Supplied(w: World, states: seq<State>, steps: seq<Step>, slot: Slot, given: Supply)
    requires |states| == |steps| + 1
  {
    && given.at < |steps|
    && var s, step := states[given.at], steps[given.at];
       || (step == Push(slot.owner, slot.node, slot.owner, slot.fileId, slot.index, given.data)
           && Act(w, s, step).1 == Ack(true))
       || (step.ReviveFetch? && step.id in s.revives && s.revives[step.id].slot == slot
           && Asked(w, s, slot) == Found(given.data))
  }

  ghost predicate FlightsSupplied(w: World, states: seq<State>, steps: seq<Step>, j: nat)
    requires j < |states| == |steps| + 1
  {
    forall id :: id in states[j].revives && states[j].revives[id].fetched.Some? ==>
      var f := states[j].revives[id];
      f.fetched.value.at < j && Supplied(w, states, steps, f.slot, f.fetched.value) && steps[f.fetched.value.at].ReviveFetch?
  }

  lemma {:induction false} FlightsAreSupplied(w: World, states: seq<State>, steps: seq<Step>, j: nat)
    requires IsRun(w, states, steps) && j < |states|
    ensures FlightsSupplied(w, states, steps, j)
  {
    if j > 0 {
      FlightsAreSupplied(w, states, steps, j - 1);
      ClockIsIndex(w, states, steps, j - 1);
      var s, step, s' := states[j - 1], steps[j - 1], states[j];
      assert s' == Apply(w, s, step).0;
      forall id | id in s'.revives && s'.revives[id].fetched.Some?
        ensures var f := s'.revives[id];
          f.fetched.value.at < j && Supplied(w, states, steps, f.slot, f.fetched.value) && steps[f.fetched.value.at].ReviveFetch?
      {
        NewFlight(w, s, step, id);
      }
    }
  }

  /** A flight with an answer had it before the step, or the step fetched it. */
  lemma NewFlight(w: World, s: State, step: Step, id: nat)
    requires var s' := Apply(w, s, step).0; id in s'.revives && s'.revives[id].fetched.Some?
    ensures var f := Apply(w, s, step).0.revives[id];
      || (id in s.revives && s.revives[id] == f)
      || (step == ReviveFetch(id) && id in s.revives && f.slot == s.revives[id].slot
          && f.fetched.value.at == s.clock && Asked(w, s, f.slot) == Found(f.fetched.value.data))
  {
    hide HandlePush, HandlePull, HandleManifestPush, HandleManifestPull, Verify, Storable;
    PushKeepsFlights(w, s, step);
  }

  /** Every write of a run was handed out by the owner, at the step it carries. */
  lemma WritesAreSupplied(w: World, states: seq<State>, steps: seq<Step>, slot: Slot, k: nat)
    requires IsRun(w, states, steps) && k < |steps| && OwnerWrite(w, states[k], steps[k], slot).Some?
    ensures var given := OwnerWrite(w, states[k], steps[k], slot).value;
      && given.at <= k && Supplied(w, states, steps, slot, given)
      && (steps[k].Push? <==> steps[given.at].Push?) && (steps[k].Push? ==> given.at == k)
  {
    hide Act;
    ClockIsIndex(w, states, steps, k);
    FlightsAreSupplied(w, states, steps, k);
  }

  /** After an acknowledged push, with no rot since, a Found reply carries what was written
      to the slot last; that is data the owner pushed there or answered to a revive. */
  lemma FoundIsLastWrite(w: World, states: seq<State>, steps: seq<Step>, slot: Slot, i: nat, j: nat) returns (k: nat, given: Supply)
    requires IsRun(w, states, steps) && i < j < |steps| && IsPush(w, states, steps, slot, i) && NoRot(steps, slot, i, j)
    requires steps[j].Pull? && Slot(steps[j].to, steps[j].owner, steps[j].fileId, steps[j].index) == slot
    requires Apply(w, states[j], steps[j]).1.Found?
    ensures Apply(w, states[j], steps[j]).1.data == given.data
    ensures LastOwnerWrite(w, states, steps, slot, given, i, k, j) && Supplied(w, states, steps, slot, given)
  {
    k, given := SlotHoldsLastWrite(w, states, steps, slot, i, j);
    WritesAreSupplied(w, states, steps, slot, k);
  }

  /** Step i is an acknowledged push of the slot's owner to the slot. */
  ghost predicate IsPush(w: World, states: seq<State>, steps: seq<Step>, slot: Slot, i: nat)
    requires |states| == |steps| + 1
  {
    i < |steps| && steps[i].Push? && OwnerWrite(w, states[i], steps[i], slot).Some?
  }

  // ---- When a reply can be older than an acknowledged push -----------------

  /** Step k stores, into the slot, an answer the owner gave before step i. */
  ghost predicate StaleStore(w: World, states: seq<State>, steps: seq<Step>, slot: Slot, i: nat, k: nat)
    requires |states| == |steps| + 1
  {
    && k < |steps| && steps[k].ReviveStore?
    && var given := OwnerWrite(w, states[k], steps[k], slot); given.Some? && given.value.at < i
  }

  /** At j the slot holds data handed out at or after step i. */
  predicate FreshSince(s: State, slot: Slot, i: nat) {
    slot in s.cells && s.cells[slot].supplied >= i
  }

  lemma FreshStep(w: World, states: seq<State>, steps: seq<Step>, slot: Slot, i: nat, m: nat)
    requires IsRun(w, states, steps) && i < m < |steps| && NoRot(steps, slot, i, m + 1) && FreshSince(states[m], slot, i)
    ensures FreshSince(states[m + 1], slot, i) <==> !StaleStore(w, states, steps, slot, i, m)
  {
    hide Apply, OwnerWrite;
    OnlyOwnerChangesSlot(w, states[m], steps[m], slot);
    if OwnerWrite(w, states[m], steps[m], slot).Some? {
      WritesAreSupplied(w, states, steps, slot, m);
      WriteKinds(w, states[m], steps[m], slot);
    }
  }

  lemma WriteKinds(w: World, s: State, step: Step, slot: Slot)
    requires OwnerWrite(w, s, step, slot).Some?
    ensures step.Push? || step.ReviveStore?
  {
  }

  /** After an acknowledged push i the slot never falls back to older data up to j, if and
      only if no revive stores in between what it had fetched before the push. */
  lemma {:induction false} NeverStaleIff(w: World, states: seq<State>, steps: seq<Step>, slot: Slot, i: nat, j: nat)
    requires IsRun(w, states, steps) && i < j < |states| && IsPush(w, states, steps, slot, i) && NoRot(steps, slot, i, j)
    ensures (forall m :: i < m <= j ==> FreshSince(states[m], slot, i)) <==>
            (forall k :: i < k < j ==> !StaleStore(w, states, steps, slot, i, k))
  {
    hide Apply, OwnerWrite, StaleStore, FreshSince;
    if j == i + 1 {
      PushIsFresh(w, states, steps, slot, i);
    } else {
      NeverStaleIff(w, states, steps, slot, i, j - 1);
      if forall m :: i < m <= j - 1 ==> FreshSince(states[m], slot, i) {
        FreshStep(w, states, steps, slot, i, j - 1);
      }
    }
  }

  lemma PushIsFresh(w: World, states: seq<State>, steps: seq<Step>, slot: Slot, i: nat)
    requires IsRun(w, states, steps) && IsPush(w, states, steps, slot, i)
    ensures FreshSince(states[i + 1], slot, i)
  {
    hide Act;
    OnlyOwnerChangesSlot(w, states[i], steps[i], slot);
    ClockIsIndex(w, states, steps, i);
  }

  /** One Found reply: it carries data handed out at or after push i if and only if the last
      write before it is not a revive's answer from before i. */
  lemma FoundIsFreshIff(w: World, states: seq<State>, steps: seq<Step>, slot: Slot, i: nat, j: nat)
    requires IsRun(w, states, steps) && i < j < |steps| && IsPush(w, states, steps, slot, i) && NoRot(steps, slot, i, j)
    requires steps[j].Pull? && Slot(steps[j].to, steps[j].owner, steps[j].fileId, steps[j].index) == slot
    requires Apply(w, states[j], steps[j]).1.Found?
    ensures Apply(w, states[j], steps[j]).1.data == states[j].cells[slot].data
    ensures FreshSince(states[j], slot, i) <==>
      !exists k, given :: i < k && LastOwnerWrite(w, states, steps, slot, given, i, k, j) && StaleStore(w, states, steps, slot, i, k)
  {
    var k, given := FoundIsLastWrite(w, states, steps, slot, i, j);
    assert states[j].cells[slot] == CellOf(w, given) by {
      var k', given' := SlotHoldsLastWrite(w, states, steps, slot, i, j);
      LastIsOne(w, states, steps, slot, i, j, k, given, k', given');
    }
    forall k', given' | LastOwnerWrite(w, states, steps, slot, given', i, k', j) ensures k' == k && given' == given {
      LastIsOne(w, states, steps, slot, i, j, k, given, k', given');
    }
    hide Act;
    ClockIsIndex(w, states, steps, i);
    WriteKinds(w, states[k], steps[k], slot);
    WritesAreSupplied(w, states, steps, slot, k);
  }

  lemma LastIsOne(w: World, states: seq<State>, steps: seq<Step>, slot: Slot, i: nat, j: nat,
                  k: nat, given: Supply, k': nat, given': Supply)
    requires j < |states| == |steps| + 1
    requires LastOwnerWrite(w, states, steps, slot, given, i, k, j) && LastOwnerWrite(w, states, steps, slot, given', i, k', j)
    ensures k == k' && given == given'
  {
    hide OwnerWrite;
  }

  /** No revive stores into the slot strictly between i and j. */
  ghost predicate NoLateRevive(w: World, states: seq<State>, steps: seq<Step>, slot: Slot, i: nat, j: nat)
    requires j < |states| == |steps| + 1
  {
    forall k :: i < k < j && steps[k].ReviveStore? ==> OwnerWrite(w, states[k], steps[k], slot).None?
  }

  /** At m the slot holds what an acknowledged push from i on put there. */
  ghost predicate FromPush(w: World, states: seq<State>, steps: seq<Step>, slot: Slot, i: nat, m: nat)
    requires m < |states| == |steps| + 1
  {
    && FreshSince(states[m], slot, i) && states[m].cells[slot].supplied < m
    && var k := states[m].cells[slot].supplied;
       IsPush(w, states, steps, slot, k) && steps[k].data == states[m].cells[slot].data
  }

  lemma FromPushStep(w: World, states: seq<State>, steps: seq<Step>, slot: Slot, i: nat, m: nat)
    requires IsRun(w, states, steps) && i < m < |steps| && NoRot(steps, slot, i, m + 1) && FromPush(w, states, steps, slot, i, m)
    ensures FromPush(w, states, steps, slot, i, m + 1) <==>
      !(steps[m].ReviveStore? && OwnerWrite(w, states[m], steps[m], slot).Some?)
  {
    hide Apply;
    OnlyOwnerChangesSlot(w, states[m], steps[m], slot);
    if OwnerWrite(w, states[m], steps[m], slot).Some? {
      WritesAreSupplied(w, states, steps, slot, m);
      WriteKinds(w, states[m], steps[m], slot);
    }
  }

  /** From push i to j the slot always holds the data of that push or of a later one, if and
      only if no revive stores into it in between. */
  lemma {:induction false} AlwaysLastPushIff(w: World, states: seq<State>, steps: seq<Step>, slot: Slot, i: nat, j: nat)
    requires IsRun(w, states, steps) && i < j < |states| && IsPush(w, states, steps, slot, i) && NoRot(steps, slot, i, j)
    ensures (forall m :: i < m <= j ==> FromPush(w, states, steps, slot, i, m)) <==> NoLateRevive(w, states, steps, slot, i, j)
  {
    hide Apply, OwnerWrite, FromPush;
    if j == i + 1 {
      PushIsFromPush(w, states, steps, slot, i);
    } else {
      AlwaysLastPushIff(w, states, steps, slot, i, j - 1);
      if forall m :: i < m <= j - 1 ==> FromPush(w, states, steps, slot, i, m) {
        FromPushStep(w, states, steps, slot, i, j - 1);
      }
    }
  }

  lemma PushIsFromPush(w: World, states: seq<State>, steps: seq<Step>, slot: Slot, i: nat)
    requires IsRun(w, states, steps) && IsPush(w, states, steps, slot, i)
    ensures FromPush(w, states, steps, slot, i, i + 1)
  {
    hide Act;
    OnlyOwnerChangesSlot(w, states[i], steps[i], slot);
    ClockIsIndex(w, states, steps, i);
  }

  // ---- Two ways to know that no revive comes late --------------------------

  ghost predicate NoFlight(s: State, slot: Slot) {
    forall id :: id in s.revives ==> s.revives[id].slot != slot
  }

  lemma NoFlightStep(w: World, s: State, step: Step, slot: Slot)
    requires NoFlight(s, slot) && (Verify(w, s, slot) || step.Push?)
    ensures NoFlight(Apply(w, s, step).0, slot)
  {
    hide HandlePush, HandlePull, HandleManifestPush, HandleManifestPull, Verify, Storable;
    PushKeepsFlights(w, s, step);
  }

  lemma PushKeepsFlights(w: World, s: State, step: Step)
    ensures step.Push? || step.ManifestPush? ==> Act(w, s, step).0.revives == s.revives
  {
  }

  lemma {:induction false} NoFlightStarts(w: World, states: seq<State>, steps: seq<Step>, slot: Slot, i: nat, m: nat)
    requires IsRun(w, states, steps) && i < m < |states| && IsPush(w, states, steps, slot, i) && NoRot(steps, slot, i, m)
    requires NoFlight(states[i], slot)
    ensures NoFlight(states[m], slot)
  {
    hide Apply, OwnerWrite, NoFlight;
    assert states[m - 1 + 1] == Apply(w, states[m - 1], steps[m - 1]).0;
    if m > i + 1 {
      NoFlightStarts(w, states, steps, slot, i, m - 1);
      var k, given := SlotHoldsLastWrite(w, states, steps, slot, i, m - 1);
      assert Verify(w, states[m - 1], slot);
    }
    NoFlightStep(w, states[m - 1], steps[m - 1], slot);
  }

  /** If no revive of the slot is under way when the push arrives, none stores after it:
      the slot verifies from then on. So a Found reply carries that push or a later one. */
  lemma FoundIsLastPush(w: World, states: seq<State>, steps: seq<Step>, slot: Slot, i: nat, j: nat) returns (k: nat)
    requires IsRun(w, states, steps) && i < j < |steps| && IsPush(w, states, steps, slot, i) && NoRot(steps, slot, i, j)
    requires NoFlight(states[i], slot) || NoLateRevive(w, states, steps, slot, i, j)
    requires steps[j].Pull? && Slot(steps[j].to, steps[j].owner, steps[j].fileId, steps[j].index) == slot
    requires Apply(w, states[j], steps[j]).1.Found?
    ensures i <= k < j && IsPush(w, states, steps, slot, k) && steps[k].data == Apply(w, states[j], steps[j]).1.data
    ensures forall m :: k < m < j ==> !IsPush(w, states, steps, slot, m)
  {
    if NoFlight(states[i], slot) {
      forall m | i < m < j && steps[m].ReviveStore? ensures OwnerWrite(w, states[m], steps[m], slot).None? {
        NoFlightStarts(w, states, steps, slot, i, m);
      }
    }
    AlwaysLastPushIff(w, states, steps, slot, i, j);
    assert FromPush(w, states, steps, slot, i, j);
    var last, given := SlotHoldsLastWrite(w, states, steps, slot, i, j);
    WritesAreSupplied(w, states, steps, slot, last);
    k := last;
  }

  // ---- Rot is the only way a slot stops verifying --------------------------

  lemma {:induction false} UnrottenSlotsVerify(w: World, states: seq<State>, steps: seq<Step>, slot: Slot, j: nat)
    requires IsRun(w, states, steps) && j < |states| && NoRot(steps, slot, 0, j)
    ensures slot in states[j].cells ==> Verify(w, states[j], slot)
  {
    hide Apply, OwnerWrite;
    if j > 0 {
      UnrottenSlotsVerify(w, states, steps, slot, j - 1);
      OnlyOwnerChangesSlot(w, states[j - 1], steps[j - 1], slot);
    }
  }

  // ---- Every stored slot is one the store accepts --------------------------

  ghost predicate SlotsOk(s: State) {
    && (forall slot :: slot in s.cells ==> Storable(s, slot))
    && (forall id :: id in s.revives ==> s.revives[id].slot in s.cells)
  }

  lemma StepKeepsSlots(w: World, s: State, step: Step)
    requires SlotsOk(s)
    ensures SlotsOk(Apply(w, s, step).0)
  {
    var s' := Apply(w, s, step).0;
    forall slot | slot in s'.cells ensures Storable(s', slot) {
      StepKeepsSlot(w, s, step, slot);
    }
    forall id | id in s'.revives ensures s'.revives[id].slot in s'.cells {
      FlightSlotStays(w, s, step, id);
      OnlyOwnerChangesSlot(w, s, step, s'.revives[id].slot);
    }
  }

  lemma StepKeepsSlot(w: World, s: State, step: Step, slot: Slot)
    requires SlotsOk(s) && slot in Apply(w, s, step).0.cells
    ensures Storable(Apply(w, s, step).0, slot)
  {
    if step.ManifestPush? {
      ManifestKeepsSlot(w, s, step, slot);
    } else {
      OthersKeepManifests(w, s, step);
      if slot !in s.cells {
        NewSlotIsStorable(w, s, step, slot);
      }
      hide Act, Safe;
    }
  }

  lemma OthersKeepManifests(w: World, s: State, step: Step)
    ensures !step.ManifestPush? ==> Act(w, s, step).0.manifests == s.manifests
  {
  }

  lemma NewSlotIsStorable(w: World, s: State, step: Step, slot: Slot)
    requires slot in Apply(w, s, step).0.cells && slot !in s.cells
    ensures Storable(s, slot)
  {
    hide HandlePull, HandleManifestPull, Verify, Safe;
  }

  lemma ManifestKeepsSlot(w: World, s: State, step: Step, slot: Slot)
    requires step.ManifestPush? && slot in s.cells && Storable(s, slot)
    ensures Storable(Apply(w, s, step).0, slot)
  {
  }

  lemma FlightSlotStays(w: World, s: State, step: Step, id: nat)
    requires id in Apply(w, s, step).0.revives
    ensures var slot := Apply(w, s, step).0.revives[id].slot;
      (id in s.revives && s.revives[id].slot == slot) || slot in s.cells
  {
    hide HandlePush, HandlePull, HandleManifestPush, HandleManifestPull, Verify, Storable;
    PushKeepsFlights(w, s, step);
  }

  lemma {:induction false} RunsKeepSlots(w: World, states: seq<State>, steps: seq<Step>, j: nat)
    requires IsRun(w, states, steps) && j < |states|
    ensures SlotsOk(states[j])
  {
    hide Apply, Storable;
    if j > 0 {
      RunsKeepSlots(w, states, steps, j - 1);
      StepKeepsSlots(w, states[j - 1], steps[j - 1]);
    }
  }

  // ---- When a revive succeeds ----------------------------------------------

  /** The slot of the owner's own store, which is all a revive can draw on. */
  function OwnSlot(slot: Slot): Slot { slot.(node := slot.owner) }

  /** Before j the owner pushed this shard to itself. */
  ghost predicate PushedToSelf(w: World, states: seq<State>, steps: seq<Step>, slot: Slot, j: nat)
    requires j < |states| == |steps| + 1
  {
    exists k :: 0 <= k < j && IsPush(w, states, steps, OwnSlot(slot), k)
  }

  /** A slot is filled if and only if its owner pushed to it and saw that acknowledged. */
  lemma {:induction false} SlotIff(w: World, states: seq<State>, steps: seq<Step>, slot: Slot, j: nat)
    requires IsRun(w, states, steps) && j < |states|
    ensures slot in states[j].cells <==> exists k :: 0 <= k < j && IsPush(w, states, steps, slot, k)
  {
    hide Apply, Storable, IsPush;
    if j > 0 {
      SlotIff(w, states, steps, slot, j - 1);
      OnlyOwnerChangesSlot(w, states[j - 1], steps[j - 1], slot);
      RunsKeepSlots(w, states, steps, j - 1);
      SlotIsNewByPush(w, states, steps, slot, j - 1);
    }
  }

  lemma OwnSlotIff(w: World, states: seq<State>, steps: seq<Step>, slot: Slot, j: nat)
    requires IsRun(w, states, steps) && j < |states|
    ensures OwnSlot(slot) in states[j].cells <==> PushedToSelf(w, states, steps, slot, j)
  {
    hide IsRun, IsPush;
    SlotIff(w, states, steps, OwnSlot(slot), j);
  }

  // ---- What is acknowledged and what is answered ---------------------------

  /** The node has the peer in its registry, with no key or with the key in the peer's ID. */
  predicate Registered(w: World, s: State, at: Node, peer: Node) {
    at in s.registries && peer in s.registries[at]
    && (s.registries[at][peer] == RegEntry([]) || s.registries[at][peer] == RegEntry(w.keyOf(peer)))
  }

  /** A push is acknowledged if and only if a registered peer pushes its own shard under safe
      names, and not under the manifest's name beside its manifest. */
  lemma PushAckedIff(w: World, s: State, from: Node, to: Node, owner: string, fileId: string, index: int, data: bytes)
    ensures Apply(w, s, Push(from, to, owner, fileId, index, data)).1 == Ack(
      Registered(w, s, to, from) && owner == from && Safe(owner) && Safe(fileId)
      && !(fileId == "manifest.enc" && (to, owner) in s.manifests))
  {
    hide Safe;
  }

  /** A manifest push is acknowledged if and only if a registered peer pushes its own under a
      safe name, and no shard of it under the manifest's name is stored. */
  lemma ManifestPushAckedIff(w: World, s: State, from: Node, to: Node, owner: string, data: bytes)
    ensures Apply(w, s, ManifestPush(from, to, owner, data)).1 ==
      if !Registered(w, s, to, from) then NoReply
      else Ack(owner == from && Safe(owner) && forall i: int :: Slot(to, owner, "manifest.enc", i) !in s.cells)
  {
    hide Safe;
    if ManifestClash(s, to, owner) {
      var slot :| slot in s.cells && slot.node == to && slot.owner == owner && slot.fileId == MANIFEST;
      assert Slot(to, owner, "manifest.enc", slot.index) in s.cells;
    }
  }

  /** A pull is answered if and only if a registered peer asks for its own shard or for one of
      the asked node's, and a push of that shard to the asked node was acknowledged before. */
  lemma PullFoundIff(w: World, states: seq<State>, steps: seq<Step>, j: nat)
    requires IsRun(w, states, steps) && j < |steps| && steps[j].Pull?
    ensures var p := steps[j];
      Apply(w, states[j], p).1.Found? <==>
        && Registered(w, states[j], p.to, p.from) && (p.owner == p.from || p.owner == p.to)
        && exists k :: 0 <= k < j && IsPush(w, states, steps, Slot(p.to, p.owner, p.fileId, p.index), k)
  {
    hide Safe, IsPush;
    var p := steps[j];
    var slot := Slot(p.to, p.owner, p.fileId, p.index);
    SlotIff(w, states, steps, slot, j);
    RunsKeepSlots(w, states, steps, j);
  }

  lemma SlotIsNewByPush(w: World, states: seq<State>, steps: seq<Step>, slot: Slot, i: nat)
    requires IsRun(w, states, steps) && i < |steps| && SlotsOk(states[i])
    ensures OwnerWrite(w, states[i], steps[i], slot).Some? && slot !in states[i].cells ==> IsPush(w, states, steps, slot, i)
    ensures IsPush(w, states, steps, slot, i) ==> OwnerWrite(w, states[i], steps[i], slot).Some?
  {
    hide Act;
  }

  /** The owner answers a revive if and only if it knows the asking node and once pushed
      the shard to itself. */
  lemma FetchSucceedsIff(w: World, states: seq<State>, steps: seq<Step>, j: nat)
    requires IsRun(w, states, steps) && j < |steps| && steps[j].ReviveFetch?
    requires steps[j].id in states[j].revives && states[j].revives[steps[j].id].fetched.None?
    ensures var slot := states[j].revives[steps[j].id].slot;
      Apply(w, states[j], steps[j]).1.Found? <==>
        Auth(w, states[j], slot.owner, slot.node) && PushedToSelf(w, states, steps, slot, j)
  {
    var slot := states[j].revives[steps[j].id].slot;
    RunsKeepSlots(w, states, steps, j);
    OwnSlotIff(w, states, steps, slot, j);
  }

  /** A revive that nothing interrupts stores a new copy if and only if the slot is there and
      fails its hash, the owner knows this node, and the owner once pushed the shard to itself. */
  lemma ReviveSucceedsIff(w: World, states: seq<State>, steps: seq<Step>, j: nat, id: nat, slot: Slot)
    requires IsRun(w, states, steps) && j + 2 < |steps| && id !in states[j].revives
    requires steps[j] == ReviveCheck(id, slot) && steps[j + 1] == ReviveFetch(id) && steps[j + 2] == ReviveStore(id)
    ensures Apply(w, states[j + 2], steps[j + 2]).1 == Ack(true) <==>
      && slot in states[j].cells && !Verify(w, states[j], slot)
      && Auth(w, states[j], slot.owner, slot.node) && PushedToSelf(w, states, steps, slot, j)
  {
    hide Apply, Verify, Auth, SlotsOk, PushedToSelf;
    var s := states[j];
    assert states[j + 1] == Apply(w, s, steps[j]).0 && states[j + 2] == Apply(w, states[j + 1], steps[j + 1]).0;
    RunsKeepSlots(w, states, steps, j);
    OwnSlotIff(w, states, steps, slot, j);
    ReviveAtOnce(w, s, id, slot);
  }

  /** The three steps of a revive in a row. */
  lemma ReviveAtOnce(w: World, s: State, id: nat, slot: Slot)
    requires SlotsOk(s) && id !in s.revives
    ensures var s1 := Apply(w, s, ReviveCheck(id, slot)).0;
      var s2 := Apply(w, s1, ReviveFetch(id)).0;
      Apply(w, s2, ReviveStore(id)).1 == Ack(true) <==>
        slot in s.cells && !Verify(w, s, slot) && Auth(w, s, slot.owner, slot.node) && OwnSlot(slot) in s.cells
  {
    hide HandlePush, HandleManifestPush, HandleManifestPull, HandlePull, Verify, Auth;
    var s1 := Apply(w, s, ReviveCheck(id, slot)).0;
    if slot in s.cells && !Verify(w, s, slot) {
      AskedWhen(w, s, slot);
      AskedAlike(w, s, s1, slot);
    }
  }

  lemma AskedAlike(w: World, s: State, s': State, slot: Slot)
    requires s'.cells == s.cells && s'.registries == s.registries
    ensures Asked(w, s', slot) == Asked(w, s, slot)
  {
  }

  lemma AskedWhen(w: World, s: State, slot: Slot)
    requires SlotsOk(s) && slot in s.cells
    ensures Asked(w, s, slot).Found? <==> Auth(w, s, slot.owner, slot.node) && OwnSlot(slot) in s.cells
  {
  }

  /** So a revive of a shard its owner never pushed to itself always fails. */
  lemma ReviveNeverSucceeds(w: World, states: seq<State>, steps: seq<Step>, j: nat)
    requires IsRun(w, states, steps) && j < |steps| && steps[j].ReviveFetch?
    requires steps[j].id in states[j].revives && states[j].revives[steps[j].id].fetched.None?
    requires !PushedToSelf(w, states, steps, states[j].revives[steps[j].id].slot, j)
    ensures Apply(w, states[j], steps[j]).1 == NotFound
    ensures steps[j].id !in states[j + 1].revives && states[j + 1].cells == states[j].cells
  {
    FetchSucceedsIff(w, states, steps, j);
    assert states[j + 1] == Apply(w, states[j], steps[j]).0;
  }

  /** And without a self-push no revive comes late. */
  lemma NoSelfPushNoLateRevive(w: World, states: seq<State>, steps: seq<Step>, slot: Slot, i: nat, j: nat)
    requires IsRun(w, states, steps) && i <= j < |states| && !PushedToSelf(w, states, steps, slot, j)
    ensures NoLateRevive(w, states, steps, slot, i, j)
  {
    forall k | i < k < j && steps[k].ReviveStore? ensures OwnerWrite(w, states[k], steps[k], slot).None? {
      if OwnerWrite(w, states[k], steps[k], slot).Some? {
        var given := OwnerWrite(w, states[k], steps[k], slot).value;
        WritesAreSupplied(w, states, steps, slot, k);
        OwnSlotIff(w, states, steps, slot, given.at);
        FoundMeansStored(w, states[given.at], slot);
      }
    }
  }

  lemma FoundMeansStored(w: World, s: State, slot: Slot)
    requires Asked(w, s, slot).Found?
    ensures OwnSlot(slot) in s.cells
  {
  }

  // ---- A late store --------------------------------------------------------

  /** Owner `o` keeps an old copy itself and has one at `a`, which rots. `a` fetches the old
      copy again; before it stores it, `o` pushes a new one and sees it acknowledged. Then
      the old copy replaces the new one, and `o` is answered with it. */
  function LateSteps(slot: Slot, old_: bytes, newer: bytes, rotten: bytes): seq<Step> {
    var o, a, f, x := slot.owner, slot.node, slot.fileId, slot.index;
    [Push(o, o, o, f, x, old_), Push(o, a, o, f, x, old_), Rot(slot, rotten), ReviveCheck(0, slot), ReviveFetch(0),
     Push(o, a, o, f, x, newer), ReviveStore(0), Pull(o, a, o, f, x)]
  }

  function LateStart(slot: Slot): State {
    var o, a := slot.owner, slot.node;
    State(map[], map[], map[o := map[o := RegEntry([]), a := RegEntry([])], a := map[o := RegEntry([])]], map[], 0)
  }

  function LateState(w: World, slot: Slot, old_: bytes, newer: bytes, rotten: bytes, i: nat): State {
    var own, start := OwnSlot(slot), LateStart(slot);
    var kept, sent := Cell(old_, w.lib.sha(old_), 0), Cell(old_, w.lib.sha(old_), 1);
    var bad, late := sent.(data := rotten), Cell(old_, w.lib.sha(old_), 4);
    var flying := map[0 := Flight(slot, Some(Supply(old_, 4)))];
    if i == 0 then start
    else if i == 1 then start.(cells := map[own := kept], clock := 1)
    else if i == 2 then start.(cells := map[own := kept, slot := sent], clock := 2)
    else if i == 3 then start.(cells := map[own := kept, slot := bad], clock := 3)
    else if i == 4 then start.(cells := map[own := kept, slot := bad], revives := map[0 := Flight(slot, None)], clock := 4)
    else if i == 5 then start.(cells := map[own := kept, slot := bad], revives := flying, clock := 5)
    else if i == 6 then start.(cells := map[own := kept, slot := Cell(newer, w.lib.sha(newer), 5)], revives := flying, clock := 6)
    else start.(cells := map[own := kept, slot := late], clock := i)
  }

  predicate LateSetup(w: World, slot: Slot, old_: bytes, rotten: bytes) {
    && slot.node != slot.owner && Safe(slot.owner) && Safe(slot.fileId) && w.lib.sha(rotten) != w.lib.sha(old_)
  }

  lemma LatePush0(w: World, slot: Slot, old_: bytes, newer: bytes, rotten: bytes)
    requires LateSetup(w, slot, old_, rotten)
    ensures Apply(w, LateState(w, slot, old_, newer, rotten, 0), LateSteps(slot, old_, newer, rotten)[0]).0
         == LateState(w, slot, old_, newer, rotten, 1)
  {
    var s, o := LateStart(slot), slot.owner;
    assert Auth(w, s, o, o);
  }

  lemma LatePush1(w: World, slot: Slot, old_: bytes, newer: bytes, rotten: bytes)
    requires LateSetup(w, slot, old_, rotten)
    ensures Apply(w, LateState(w, slot, old_, newer, rotten, 1), LateSteps(slot, old_, newer, rotten)[1]).0
         == LateState(w, slot, old_, newer, rotten, 2)
  {
    var s := LateState(w, slot, old_, newer, rotten, 1);
    assert Auth(w, s, slot.node, slot.owner);
  }

  lemma LatePush5(w: World, slot: Slot, old_: bytes, newer: bytes, rotten: bytes)
    requires LateSetup(w, slot, old_, rotten)
    ensures var r := Apply(w, LateState(w, slot, old_, newer, rotten, 5), LateSteps(slot, old_, newer, rotten)[5]);
      r.0 == LateState(w, slot, old_, newer, rotten, 6) && r.1 == Ack(true)
  {
    var s := LateState(w, slot, old_, newer, rotten, 5);
    assert Auth(w, s, slot.node, slot.owner);
    assert s.cells[slot := Cell(newer, w.lib.sha(newer), 5)] == LateState(w, slot, old_, newer, rotten, 6).cells;
  }

  lemma LateRot(w: World, slot: Slot, old_: bytes, newer: bytes, rotten: bytes)
    requires LateSetup(w, slot, old_, rotten)
    ensures Apply(w, LateState(w, slot, old_, newer, rotten, 2), Rot(slot, rotten)).0 == LateState(w, slot, old_, newer, rotten, 3)
  {
  }

  lemma LateCheck(w: World, slot: Slot, old_: bytes, newer: bytes, rotten: bytes)
    requires LateSetup(w, slot, old_, rotten)
    ensures Apply(w, LateState(w, slot, old_, newer, rotten, 3), ReviveCheck(0, slot)).0 == LateState(w, slot, old_, newer, rotten, 4)
  {
  }

  lemma LateFetch(w: World, slot: Slot, old_: bytes, newer: bytes, rotten: bytes)
    requires LateSetup(w, slot, old_, rotten)
    ensures Apply(w, LateState(w, slot, old_, newer, rotten, 4), ReviveFetch(0)).0 == LateState(w, slot, old_, newer, rotten, 5)
  {
    assert Asked(w, LateState(w, slot, old_, newer, rotten, 4), slot) == Found(old_);
  }

  lemma LateStore(w: World, slot: Slot, old_: bytes, newer: bytes, rotten: bytes)
    requires LateSetup(w, slot, old_, rotten)
    ensures Apply(w, LateState(w, slot, old_, newer, rotten, 6), ReviveStore(0)).0 == LateState(w, slot, old_, newer, rotten, 7)
  {
  }

  lemma LateAnswer(w: World, slot: Slot, old_: bytes, newer: bytes, rotten: bytes)
    requires LateSetup(w, slot, old_, rotten)
    ensures var step := LateSteps(slot, old_, newer, rotten)[7];
      Apply(w, LateState(w, slot, old_, newer, rotten, 7), step) == (LateState(w, slot, old_, newer, rotten, 8), Found(old_))
  {
  }

  lemma LateStep(w: World, slot: Slot, old_: bytes, newer: bytes, rotten: bytes, i: nat)
    requires LateSetup(w, slot, old_, rotten) && i < 8
    ensures Apply(w, LateState(w, slot, old_, newer, rotten, i), LateSteps(slot, old_, newer, rotten)[i]).0
         == LateState(w, slot, old_, newer, rotten, i + 1)
  {
    hide Apply, LateState;
    if i == 0 {
      LatePush0(w, slot, old_, newer, rotten);
    } else if i == 1 {
      LatePush1(w, slot, old_, newer, rotten);
    } else if i == 2 {
      LateRot(w, slot, old_, newer, rotten);
    } else if i == 3 {
      LateCheck(w, slot, old_, newer, rotten);
    } else if i == 4 {
      LateFetch(w, slot, old_, newer, rotten);
    } else if i == 5 {
      LatePush5(w, slot, old_, newer, rotten);
    } else if i == 6 {
      LateStore(w, slot, old_, newer, rotten);
    } else {
      LateAnswer(w, slot, old_, newer, rotten);
    }
  }

  lemma LateStoreReplacesPush(w: World, slot: Slot, old_: bytes, newer: bytes, rotten: bytes)
    returns (states: seq<State>, steps: seq<Step>)
    requires LateSetup(w, slot, old_, rotten)
    ensures steps == LateSteps(slot, old_, newer, rotten) && IsRun(w, states, steps)
    ensures Apply(w, states[5], steps[5]).1 == Ack(true) && Apply(w, states[7], steps[7]).1 == Found(old_)
  {
    hide Apply, LateState;
    steps := LateSteps(slot, old_, newer, rotten);
    states := seq(9, i requires 0 <= i < 9 => LateState(w, slot, old_, newer, rotten, i));
    forall i | 0 <= i < 8 ensures states[i + 1] == Apply(w, states[i], steps[i]).0 {
      LateStep(w, slot, old_, newer, rotten, i);
    }
    LateFirst(w, slot, old_, newer, rotten);
    LatePush5(w, slot, old_, newer, rotten);
    LateAnswer(w, slot, old_, newer, rotten);
  }

  lemma LateFirst(w: World, slot: Slot, old_: bytes, newer: bytes, rotten: bytes)
    ensures LateState(w, slot, old_, newer, rotten, 0) == LateStart(slot)
  {
  }

  // ---- Replies and manifests over whole runs -------------------------------

  /** A Found reply never carries a third party's shard. */
  lemma FoundIsOwnOrAsked(w: World, s: State, from: Node, to: Node, owner: string, fileId: string, index: int)
    ensures HandlePull(w, s, from, to, owner, fileId, index).Found? ==>
      Auth(w, s, to, from) && (owner == from || owner == to) && Slot(to, owner, fileId, index) in s.cells
  {
  }

  /** A stored manifest changes only by its owner's push. */
  lemma OnlyOwnerChangesManifest(w: World, s: State, step: Step, at: Node, owner: string)
    ensures var s' := Apply(w, s, step).0;
      if step.ManifestPush? && step.from == step.owner == owner && step.to == at && Act(w, s, step).1 == Ack(true)
      then (at, owner) in s'.manifests && s'.manifests[(at, owner)] == step.data
      else SameAt(s.manifests, s'.manifests, (at, owner))
  {
    OthersKeepManifests(w, s, step);
    if !step.ManifestPush? {
      hide Act;
    }
  }

  /** Step k is an acknowledged manifest push of `owner` to `at`. */
  ghost predicate IsManifestPush(w: World, states: seq<State>, steps: seq<Step>, at: Node, owner: string, k: nat)
    requires |states| == |steps| + 1
  {
    && k < |steps| && steps[k].ManifestPush? && steps[k].from == steps[k].owner == owner && steps[k].to == at
    && Act(w, states[k], steps[k]).1 == Ack(true)
  }

  /** The last one before j. */
  ghost predicate LastManifestPush(w: World, states: seq<State>, steps: seq<Step>, at: Node, owner: string, k: nat, j: nat)
    requires j <= |steps| && |states| == |steps| + 1
  {
    && k < j && IsManifestPush(w, states, steps, at, owner, k)
    && forall m :: k < m < j ==> !IsManifestPush(w, states, steps, at, owner, m)
  }

  lemma {:induction false} ManifestIsLastPush(w: World, states: seq<State>, steps: seq<Step>, at: Node, owner: string, j: nat)
    requires IsRun(w, states, steps) && j < |states|
    ensures (at, owner) in states[j].manifests <==> exists k: nat :: LastManifestPush(w, states, steps, at, owner, k, j)
    ensures forall k: nat :: LastManifestPush(w, states, steps, at, owner, k, j) ==>
      (at, owner) in states[j].manifests && states[j].manifests[(at, owner)] == steps[k].data
  {
    hide Apply, IsManifestPush;
    if j > 0 {
      var s, step := states[j - 1], steps[j - 1];
      ManifestIsLastPush(w, states, steps, at, owner, j - 1);
      OnlyOwnerChangesManifest(w, s, step, at, owner);
      ManifestPushMeans(w, states, steps, at, owner, j - 1);
      if IsManifestPush(w, states, steps, at, owner, j - 1) {
        assert LastManifestPush(w, states, steps, at, owner, j - 1, j);
      } else {
        var before := j - 1;
        if k: nat :| LastManifestPush(w, states, steps, at, owner, k, before) {
          assert LastManifestPush(w, states, steps, at, owner, k, j);
        }
        forall k: nat | LastManifestPush(w, states, steps, at, owner, k, j) ensures LastManifestPush(w, states, steps, at, owner, k, j - 1) {
          assert k != j - 1;
        }
      }
    }
  }

  lemma ManifestPushMeans(w: World, states: seq<State>, steps: seq<Step>, at: Node, owner: string, k: nat)
    requires |states| == |steps| + 1 && k < |steps|
    ensures IsManifestPush(w, states, steps, at, owner, k) <==>
      steps[k].ManifestPush? && steps[k].from == steps[k].owner == owner && steps[k].to == at
      && Act(w, states[k], steps[k]).1 == Ack(true)
  {
  }

  /** A manifest request is answered if and only if an authenticated peer asks for its own
      manifest and an earlier push of it was acknowledged, and then with the last such push. */
  lemma ManifestFoundIff(w: World, states: seq<State>, steps: seq<Step>, j: nat)
    requires IsRun(w, states, steps) && j < |steps| && steps[j].ManifestPull?
    ensures var at, owner := steps[j].to, steps[j].owner;
      && (Apply(w, states[j], steps[j]).1.Found? <==>
            Auth(w, states[j], at, steps[j].from) && owner == steps[j].from
            && exists k: nat :: LastManifestPush(w, states, steps, at, owner, k, j))
      && (forall k: nat :: Apply(w, states[j], steps[j]).1.Found? && LastManifestPush(w, states, steps, at, owner, k, j) ==>
            Apply(w, states[j], steps[j]).1.data == steps[k].data)
  {
    var at, owner := steps[j].to, steps[j].owner;
    ManifestIsLastPush(w, states, steps, at, owner, j);
    if k: nat :| LastManifestPush(w, states, steps, at, owner, k, j) {
      AckedIsSafe(w, states[k], steps[k]);
    }
  }

  lemma AckedIsSafe(w: World, s: State, step: Step)
    requires step.ManifestPush? && Act(w, s, step).1 == Ack(true)
    ensures Safe(step.owner)
  {
  }
}
