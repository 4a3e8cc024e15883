/** internal/buddy/registry.go: private caches over one shared registry file. */
module Registry {
  import opened Base
  import opened Protocol

  datatype Buddy = Buddy(peerID: string, pubKey: bytes, name: string, addrs: seq<string>, addedAt: Time)

  type Buddies = map<string, Buddy>

  /** The decrypted file: absent, or a list of entries in no particular order. */
  type Content = Option<seq<Buddy>>

  predicate Keyed(m: Buddies) { forall id :: id in m ==> m[id].peerID == id }

  /** load's map of a list: a later entry of a peer replaces an earlier one. */
  function FromList(list: seq<Buddy>): (m: Buddies)
    ensures Keyed(m)
    ensures forall id :: id in m ==> Has(list, id)
  {
    if list == [] then map[]
    else
      var last := list[|list| - 1];
      FromList(list[..|list| - 1])[last.peerID := last]
  }

  predicate Has(list: seq<Buddy>, id: string) { exists i :: 0 <= i < |list| && list[i].peerID == id }

  /** `list` holds the map's values once each, in some order. */
  ghost predicate Enumerates(list: seq<Buddy>, m: Buddies) {
    && |list| == |m|
    && (forall i :: 0 <= i < |list| ==> list[i].peerID in m && m[list[i].peerID] == list[i])
    && (forall i, j :: 0 <= i < j < |list| ==> list[i].peerID != list[j].peerID)
    && (forall id :: id in m ==> Has(list, id))
  }

  /** The same of the map's keys outside `left`. */
  ghost predicate Listing(list: seq<Buddy>, m: Buddies, left: set<string>) {
    && left <= m.Keys && |list| + |left| == |m.Keys|
    && (forall i :: 0 <= i < |list| ==> list[i].peerID in m && list[i].peerID !in left && m[list[i].peerID] == list[i])
    && (forall i, j :: 0 <= i < j < |list| ==> list[i].peerID != list[j].peerID)
    && (forall id :: id in m && id !in left ==> Has(list, id))
  }

  lemma ListOneMore(list: seq<Buddy>, m: Buddies, left: set<string>, id: string)
    requires Keyed(m) && Listing(list, m, left) && id in left
    ensures Listing(list + [m[id]], m, left - {id})
  {
    var more := list + [m[id]];
    assert more[|list|].peerID == id;
    forall k | k in m && k !in left - {id} ensures Has(more, k) {
      if k != id {
        var i :| 0 <= i < |list| && list[i].peerID == k;
        assert more[i].peerID == k;
      }
    }
  }

  /** What load leaves in a handle's cache: an absent file leaves the cache as it was. */
  function Load(content: Content, cache: Buddies): Buddies {
    if content.None? then cache else FromList(content.value)
  }

  /** The buddies a file stands for. */
  function Known(content: Content): Buddies { Load(content, map[]) }

  function Stamped(e: Buddy, now: Time): Buddy {
    if e.addedAt == ZERO_TIME then e.(addedAt := now) else e
  }

  lemma {:induction false} FromListHas(list: seq<Buddy>, i: nat)
    requires i < |list|
    requires forall a, b :: 0 <= a < b < |list| ==> list[a].peerID != list[b].peerID
    ensures list[i].peerID in FromList(list) && FromList(list)[list[i].peerID] == list[i]
  {
    if i < |list| - 1 {
      FromListHas(list[..|list| - 1], i);
    }
  }

  /** Saving in any order and loading again gives the same map. */
  lemma SaveLoad(list: seq<Buddy>, m: Buddies)
    requires Enumerates(list, m)
    ensures FromList(list) == m
  {
    var back := FromList(list);
    forall id | id in m ensures id in back && back[id] == m[id] {
      var i :| 0 <= i < |list| && list[i].peerID == id;
      FromListHas(list, i);
    }
    forall id | id in back ensures id in m {
      var i :| 0 <= i < |list| && list[i].peerID == id;
    }
  }

  datatype Op =
    | Open
    | Add(e: Buddy, now: Time)
    | UpdateAddrs(peerID: string, addrs: seq<string>)
    | Remove(peerID: string)
    | Get(peerID: string)
    | List

  datatype Answer = Done | Got(entry: Option<Buddy>) | Listed(all: seq<Buddy>)

  /** The change an operation makes to the map it works on, and whether it saves. */
  function Change(m: Buddies, op: Op): Buddies {
    match op
    case Add(e, now) => m[e.peerID := Stamped(e, now)]
    case UpdateAddrs(id, addrs) => if id in m then m[id := m[id].(addrs := addrs)] else m
    case Remove(id) => m - {id}
    case _ => m
  }

  predicate Saves(m: Buddies, op: Op) {
    op.Add? || op.Remove? || (op.UpdateAddrs? && op.peerID in m)
  }

  ghost predicate Answers(m: Buddies, op: Op, answer: Answer) {
    match op
    case Get(id) => answer == Got(if id in m then Some(m[id]) else None)
    case List => answer.Listed? && Enumerates(answer.all, m)
    case _ => answer == Done
  }

  /** One operation on the file and one handle's cache: load, work on the cache, and perhaps save. */
  ghost predicate Effect(content: Content, cache: Buddies, op: Op, answer: Answer, content': Content, cache': Buddies) {
    var m := Load(content, cache);
    && Answers(m, op, answer)
    && cache' == Change(m, op)
    && if Saves(m, op) then content'.Some? && Enumerates(content'.value, Change(m, op)) else content' == content
  }

  class File {
    var content: Content

    constructor ()
      ensures content == None
    {
      content := None;
    }
  }

  class Handle {
    const file: File
    var byPeerID: Buddies

    /** While there is no file there is nothing stale to remember. */
    ghost predicate Valid()
      reads this, file
    {
      Keyed(byPeerID) && (file.content.None? ==> byPeerID == map[])
    }

    constructor (f: File)
      ensures file == f && Valid() && byPeerID == Known(f.content)
      ensures Effect(f.content, map[], Op.Open, Done, f.content, byPeerID)
    {
      file := f;
      byPeerID := map[];
      new;
      LoadFile();
    }

    method LoadFile()
      requires Valid()
      modifies this
      ensures Valid() && byPeerID == Known(file.content) && byPeerID == Load(file.content, old(byPeerID))
    {
      if file.content.None? {
        return;
      }
      var entries := file.content.value;
      var loaded: Buddies := map[];
      for i := 0 to |entries|
        invariant loaded == FromList(entries[..i])
      {
        assert entries[..i + 1][..i] == entries[..i];
        loaded := loaded[entries[i].peerID := entries[i]];
      }
      assert entries[..|entries|] == entries;
      byPeerID := loaded;
    }

    method Entries() returns (entries: seq<Buddy>)
      requires Keyed(byPeerID)
      ensures Enumerates(entries, byPeerID)
    {
      var left := byPeerID.Keys;
      entries := [];
      while left != {}
        invariant Listing(entries, byPeerID, left)
        decreases |left|
      {
        var id :| id in left;
        ListOneMore(entries, byPeerID, left, id);
        entries := entries + [byPeerID[id]];
        left := left - {id};
      }
      assert |byPeerID| == |byPeerID.Keys|;
    }

    method Save()
      requires Keyed(byPeerID)
      modifies file
      ensures file.content.Some? && Enumerates(file.content.value, byPeerID) && Known(file.content) == byPeerID
    {
      var entries := Entries();
      SaveLoad(entries, byPeerID);
      file.content := Some(entries);
    }

    method Add(e: Buddy, now: Time)
      requires Valid()
      modifies this, file
      ensures Valid() && file.content.Some?
      ensures Known(file.content) == old(Known(file.content))[e.peerID := Stamped(e, now)]
      ensures Effect(old(file.content), old(byPeerID), Op.Add(e, now), Done, file.content, byPeerID)
      ensures e.peerID in Known(file.content) && Known(file.content)[e.peerID]
        == Buddy(e.peerID, e.pubKey, e.name, e.addrs, if e.addedAt == ZERO_TIME then now else e.addedAt)
    {
      LoadFile();
      var entry := e;
      if entry.addedAt == ZERO_TIME {
        entry := entry.(addedAt := now);
      }
      byPeerID := byPeerID[entry.peerID := entry];
      Save();
    }

    method UpdateAddrs(peerID: string, addrs: seq<string>)
      requires Valid()
      modifies this, file
      ensures Valid() && (file.content.None? ==> old(file.content).None?)
      ensures peerID in old(Known(file.content)) ==>
        Known(file.content) == old(Known(file.content))[peerID := old(Known(file.content))[peerID].(addrs := addrs)]
      ensures peerID !in old(Known(file.content)) ==> file.content == old(file.content)
      ensures Effect(old(file.content), old(byPeerID), Op.UpdateAddrs(peerID, addrs), Done, file.content, byPeerID)
    {
      LoadFile();
      if peerID in byPeerID {
        byPeerID := byPeerID[peerID := byPeerID[peerID].(addrs := addrs)];
        Save();
      }
    }

    method Remove(peerID: string)
      requires Valid()
      modifies this, file
      ensures Valid() && file.content.Some?
      ensures Known(file.content) == old(Known(file.content)) - {peerID}
      ensures Effect(old(file.content), old(byPeerID), Op.Remove(peerID), Done, file.content, byPeerID)
    {
      LoadFile();
      byPeerID := byPeerID - {peerID};
      Save();
    }

    method IsKnown(peerID: string) returns (known: bool)
      requires Valid()
      modifies this
      ensures Valid() && (known <==> peerID in Known(file.content))
      ensures exists e :: Effect(file.content, old(byPeerID), Op.Get(peerID), Got(e), file.content, byPeerID) && known == e.Some?
    {
      LoadFile();
      known := peerID in byPeerID;
      ghost var e := if known then Some(byPeerID[peerID]) else None;
      assert Effect(file.content, old(byPeerID), Op.Get(peerID), Got(e), file.content, byPeerID) && known == e.Some?;
    }

    method Get(peerID: string) returns (e: Option<Buddy>)
      requires Valid()
      modifies this
      ensures Valid()
      ensures e == if peerID in Known(file.content) then Some(Known(file.content)[peerID]) else None
      ensures Effect(file.content, old(byPeerID), Op.Get(peerID), Got(e), file.content, byPeerID)
    {
      LoadFile();
      e := if peerID in byPeerID then Some(byPeerID[peerID]) else None;
    }

    method List() returns (all: seq<Buddy>)
      requires Valid()
      modifies this
      ensures Valid() && Enumerates(all, Known(file.content))
      ensures Effect(file.content, old(byPeerID), Op.List, Listed(all), file.content, byPeerID)
    {
      LoadFile();
      all := Entries();
    }
  }

  // ---- Many handles --------------------------------------------------------

  /** The file and the cache of every open handle. */
  datatype State = State(content: Content, caches: map<nat, Buddies>)

  /** Handle `h` takes one operation; Open starts from an empty cache. */
  ghost predicate Next(s: State, h: nat, op: Op, answer: Answer, s': State) {
    && (op.Open? || h in s.caches)
    && h in s'.caches && s'.caches == s.caches[h := s'.caches[h]]
    && Effect(s.content, if op.Open? then map[] else s.caches[h], op, answer, s'.content, s'.caches[h])
  }

  datatype Call = Call(h: nat, op: Op, answer: Answer)

  ghost predicate IsRun(states: seq<State>, calls: seq<Call>) {
    && |states| == |calls| + 1
    && states[0].caches == map[]
    && forall i :: 0 <= i < |calls| ==> Next(states[i], calls[i].h, calls[i].op, calls[i].answer, states[i + 1])
  }

  ghost predicate Inv(s: State) {
    s.content.None? ==> forall h :: h in s.caches ==> s.caches[h] == map[]
  }

  lemma LoadIsKnown(s: State, h: nat, op: Op)
    requires Inv(s) && (op.Open? || h in s.caches)
    ensures Load(s.content, if op.Open? then map[] else s.caches[h]) == Known(s.content)
  {
  }

  lemma StepIsOneMap(s: State, h: nat, op: Op, answer: Answer, s': State)
    requires Inv(s) && Next(s, h, op, answer, s')
    ensures Inv(s') && Answers(Known(s.content), op, answer) && Known(s'.content) == Change(Known(s.content), op)
  {
    hide FromList, Enumerates;
    LoadIsKnown(s, h, op);
    var m := Known(s.content);
    if Saves(m, op) {
      SaveLoad(s'.content.value, Change(m, op));
    }
  }

  lemma {:induction false} RunsKeepInv(states: seq<State>, calls: seq<Call>, i: nat)
    requires IsRun(states, calls) && i < |states|
    ensures Inv(states[i])
  {
    if i > 0 {
      RunsKeepInv(states, calls, i - 1);
      assert Next(states[i - 1], calls[i - 1].h, calls[i - 1].op, calls[i - 1].answer, states[i]);
      StepIsOneMap(states[i - 1], calls[i - 1].h, calls[i - 1].op, calls[i - 1].answer, states[i]);
    }
  }

  /** The map after the first k calls on one map, however the handles were chosen. */
  function OneMap(m: Buddies, calls: seq<Call>, k: nat): Buddies
    requires k <= |calls|
  {
    if k == 0 then m else Change(OneMap(m, calls, k - 1), calls[k - 1].op)
  }

  /** Any interleaving of any number of handles answers as one map would. */
  lemma {:induction false} HandlesAreOneMap(states: seq<State>, calls: seq<Call>, k: nat)
    requires IsRun(states, calls) && k <= |calls|
    ensures Known(states[k].content) == OneMap(Known(states[0].content), calls, k)
    ensures k < |calls| ==> Answers(OneMap(Known(states[0].content), calls, k), calls[k].op, calls[k].answer)
  {
    hide Answers, Change, Known, Next, Inv;
    if k > 0 {
      HandlesAreOneMap(states, calls, k - 1);
      StepOfRun(states, calls, k - 1);
    }
    if k < |calls| {
      StepOfRun(states, calls, k);
    }
  }

  /** A removed buddy stays away until some handle adds it, whatever stale handles update. */
  lemma {:induction false} RemovedStaysRemoved(states: seq<State>, calls: seq<Call>, i: nat, k: nat)
    requires IsRun(states, calls) && |states| == |calls| + 1 && i < k <= |calls| && calls[i].op.Remove?
    requires forall j :: i < j < k && calls[j].op.Add? ==> calls[j].op.e.peerID != calls[i].op.peerID
    ensures calls[i].op.peerID !in Known(states[k].content)
    ensures k < |calls| && calls[k].op == Get(calls[i].op.peerID) ==> calls[k].answer == Got(None)
  {
    hide *;
    var id, m, op := calls[i].op.peerID, Known(states[k - 1].content), calls[k - 1].op;
    StepOfRun(states, calls, k - 1);
    if k - 1 > i {
      RemovedStaysRemoved(states, calls, i, k - 1);
    }
    ChangeKeepsAway(m, op, id);
    if k < |calls| {
      StepOfRun(states, calls, k);
      AnswersNone(Known(states[k].content), id, calls[k].op, calls[k].answer);
    }
  }

  lemma StepOfRun(states: seq<State>, calls: seq<Call>, k: nat)
    requires IsRun(states, calls) && k < |calls|
    ensures |states| == |calls| + 1
    ensures Answers(Known(states[k].content), calls[k].op, calls[k].answer)
    ensures Known(states[k + 1].content) == Change(Known(states[k].content), calls[k].op)
  {
    RunsKeepInv(states, calls, k);
    StepIsOneMap(states[k], calls[k].h, calls[k].op, calls[k].answer, states[k + 1]);
  }

  lemma ChangeKeepsAway(m: Buddies, op: Op, id: string)
    requires op == Remove(id) || (id !in m && (op.Add? ==> op.e.peerID != id))
    ensures id !in Change(m, op)
  {
  }

  lemma AnswersNone(m: Buddies, id: string, op: Op, answer: Answer)
    requires id !in m && Answers(m, op, answer)
    ensures op == Get(id) ==> answer == Got(None)
  {
  }
}
