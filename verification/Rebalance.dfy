/** internal/rebalance: pushing every local shard to every registered buddy. */
module Rebalance {
  import opened Base
  import opened Storage

  datatype Error =
    | ReadError(fileId: string, index: int)
    | ConnectError(peer: string)
    | PushError(fileId: string, index: int, peer: string)

  datatype Outcome = Outcome(files: nat, attempted: nat, ok: nat, errors: seq<Error>)

  /** A push is acknowledged, stored with the acknowledgement lost, or not stored. */
  datatype Push = Acked | AckLost | Refused

  /** How the n-th attempt goes: whether the peer is or can be connected, and the push. */
  datatype Net = Net(connects: nat -> bool, pushes: nat -> Push)

  datatype Key = Key(peer: string, fileId: string, index: int)

  /** What the buddies hold for this node. */
  type Held = map<Key, bytes>

  function NetErrors(errors: seq<Error>): nat {
    if errors == [] then 0
    else NetErrors(errors[..|errors| - 1]) + if errors[|errors| - 1].ReadError? then 0 else 1
  }

  predicate Balanced(r: Outcome) { r.attempted == r.ok + NetErrors(r.errors) }

  /** The buddy holds the shard's local bytes. */
  predicate Holds(dirs: Dirs, held: Held, key: Key) {
    key in held && Get(dirs, key.fileId, key.index) == Some(held[key])
  }

  /** A buddy holds the shard, or an error says why it may not. */
  ghost predicate Accounted(dirs: Dirs, held: Held, errors: seq<Error>, key: Key) {
    || Holds(dirs, held, key)
    || ReadError(key.fileId, key.index) in errors
    || ConnectError(key.peer) in errors
    || PushError(key.fileId, key.index, key.peer) in errors
  }

  /** Between two moments buddies lost nothing and only received local shards. */
  ghost predicate Kept(dirs: Dirs, before: Held, after: Held) {
    && (forall key :: key in before ==> key in after)
    && (forall key :: key in after ==> (key in before && after[key] == before[key]) || Holds(dirs, after, key))
  }

  /** From one moment to a later one of a run. */
  ghost predicate Later(dirs: Dirs, r: Outcome, held: Held, r': Outcome, held': Held) {
    && Kept(dirs, held, held') && r.errors <= r'.errors && (Balanced(r) ==> Balanced(r'))
  }

  lemma LaterTrans(dirs: Dirs, r: Outcome, h: Held, r': Outcome, h': Held, r'': Outcome, h'': Held)
    requires Later(dirs, r, h, r', h') && Later(dirs, r', h', r'', h'')
    ensures Later(dirs, r, h, r'', h'')
  {
  }

  lemma LaterKeeps(dirs: Dirs, r: Outcome, h: Held, r': Outcome, h': Held, key: Key)
    requires Later(dirs, r, h, r', h') && Accounted(dirs, h, r.errors, key)
    ensures Accounted(dirs, h', r'.errors, key)
  {
    assert forall e :: e in r.errors ==> e in r'.errors;
  }

  lemma OneMoreError(errors: seq<Error>, e: Error)
    ensures NetErrors(errors + [e]) == NetErrors(errors) + if e.ReadError? then 0 else 1
  {
    assert (errors + [e])[..|errors|] == errors;
  }

  /** Every peer can be connected and acknowledges every push. */
  ghost predicate AllUp(net: Net) {
    forall n: nat :: net.connects(n) && net.pushes(n).Acked?
  }

  /** Every shard the index names can be read. */
  predicate Readable(dirs: Dirs, fileId: string, metas: seq<ShardMeta>) {
    forall m :: 0 <= m < |metas| ==> Get(dirs, fileId, metas[m].shardIndex).Some?
  }

  lemma UpAt(net: Net, n: nat)
    requires AllUp(net)
    ensures net.connects(n) && net.pushes(n).Acked?
  {
  }

  /** One attempt: connect if needed, push, record. */
  method Attempt(dirs: Dirs, net: Net, key: Key, data: bytes, r: Outcome, h: Held) returns (r': Outcome, h': Held)
    requires Get(dirs, key.fileId, key.index) == Some(data)
    ensures Later(dirs, r, h, r', h') && Accounted(dirs, h', r'.errors, key)
    ensures r'.attempted == r.attempted + 1 && r'.files == r.files
    ensures !net.connects(r.attempted) ==> r'.errors == r.errors + [ConnectError(key.peer)] && h' == h
    ensures net.connects(r.attempted) && net.pushes(r.attempted).Acked? ==>
      r'.errors == r.errors && r'.ok == r.ok + 1 && h' == h[key := data]
    ensures net.connects(r.attempted) && !net.pushes(r.attempted).Acked? ==>
      r'.errors == r.errors + [PushError(key.fileId, key.index, key.peer)]
  {
    r', h' := r.(attempted := r.attempted + 1), h;
    if !net.connects(r.attempted) {
      OneMoreError(r.errors, ConnectError(key.peer));
      r' := r'.(errors := r'.errors + [ConnectError(key.peer)]);
      return;
    }
    var push := net.pushes(r.attempted);
    if !push.Refused? {
      h' := h'[key := data];
    }
    if push.Acked? {
      r' := r'.(ok := r'.ok + 1);
    } else {
      OneMoreError(r.errors, PushError(key.fileId, key.index, key.peer));
      r' := r'.(errors := r'.errors + [PushError(key.fileId, key.index, key.peer)]);
    }
  }

  /** The loop over buddies for one shard. */
  method PushShard(dirs: Dirs, net: Net, conns: seq<string>, fileId: string, index: int, data: bytes, r: Outcome, h: Held)
    returns (r': Outcome, h': Held)
    requires Get(dirs, fileId, index) == Some(data)
    ensures Later(dirs, r, h, r', h') && r'.attempted == r.attempted + |conns| && r'.files == r.files
    ensures forall b :: 0 <= b < |conns| ==> Accounted(dirs, h', r'.errors, Key(conns[b], fileId, index))
    ensures AllUp(net) ==> r'.errors == r.errors
  {
    hide *;
    LaterSelf(dirs, r, h);
    r', h' := r, h;
    for b := 0 to |conns|
      invariant Later(dirs, r, h, r', h') && r'.attempted == r.attempted + b && r'.files == r.files
      invariant forall c :: 0 <= c < b ==> Accounted(dirs, h', r'.errors, Key(conns[c], fileId, index))
      invariant AllUp(net) ==> r'.errors == r.errors
    {
      if AllUp(net) {
        UpAt(net, r'.attempted);
      }
      var r1, h1 := Attempt(dirs, net, Key(conns[b], fileId, index), data, r', h');
      forall c | 0 <= c < b ensures Accounted(dirs, h1, r1.errors, Key(conns[c], fileId, index)) {
        LaterKeeps(dirs, r', h', r1, h1, Key(conns[c], fileId, index));
      }
      LaterTrans(dirs, r, h, r', h', r1, h1);
      r', h' := r1, h1;
    }
  }

  lemma LaterSelf(dirs: Dirs, r: Outcome, h: Held)
    ensures Later(dirs, r, h, r, h)
  {
  }

  lemma ReadFails(dirs: Dirs, r: Outcome, h: Held, fileId: string, index: int)
    ensures Later(dirs, r, h, r.(errors := r.errors + [ReadError(fileId, index)]), h)
  {
    OneMoreError(r.errors, ReadError(fileId, index));
  }

  lemma ReadFailsAccounts(dirs: Dirs, errors: seq<Error>, h: Held, key: Key)
    ensures Accounted(dirs, h, errors + [ReadError(key.fileId, key.index)], key)
  {
  }

  /** Every shard that the first m entries of the index name is accounted for at every buddy. */
  ghost predicate Done(dirs: Dirs, conns: seq<string>, fileId: string, metas: seq<ShardMeta>, m: nat, h: Held, errors: seq<Error>)
    requires m <= |metas|
  {
    forall i, b :: 0 <= i < m && 0 <= b < |conns| ==>
      Accounted(dirs, h, errors, Key(conns[b], fileId, metas[i].shardIndex))
  }

  lemma LaterDone(dirs: Dirs, conns: seq<string>, fileId: string, metas: seq<ShardMeta>, m: nat,
                  r: Outcome, h: Held, r': Outcome, h': Held)
    requires m <= |metas| && Later(dirs, r, h, r', h') && Done(dirs, conns, fileId, metas, m, h, r.errors)
    ensures Done(dirs, conns, fileId, metas, m, h', r'.errors)
  {
    hide Later, Accounted;
    forall i, b | 0 <= i < m && 0 <= b < |conns|
      ensures Accounted(dirs, h', r'.errors, Key(conns[b], fileId, metas[i].shardIndex))
    {
      LaterKeeps(dirs, r, h, r', h', Key(conns[b], fileId, metas[i].shardIndex));
    }
  }

  lemma OneMoreDone(dirs: Dirs, conns: seq<string>, fileId: string, metas: seq<ShardMeta>, m: nat, h: Held, errors: seq<Error>)
    requires m < |metas| && Done(dirs, conns, fileId, metas, m, h, errors)
    requires forall b :: 0 <= b < |conns| ==> Accounted(dirs, h, errors, Key(conns[b], fileId, metas[m].shardIndex))
    ensures Done(dirs, conns, fileId, metas, m + 1, h, errors)
  {
  }

  /** The loop over a file's index. */
  method PushFile(dirs: Dirs, net: Net, conns: seq<string>, fileId: string, metas: seq<ShardMeta>, r: Outcome, h: Held)
    returns (r': Outcome, h': Held)
    ensures Later(dirs, r, h, r', h') && r'.files == r.files
    ensures Done(dirs, conns, fileId, metas, |metas|, h', r'.errors)
    ensures AllUp(net) && Readable(dirs, fileId, metas) ==> r'.errors == r.errors
  {
    hide *;
    LaterSelf(dirs, r, h);
    NothingDone(dirs, conns, fileId, metas, h, r.errors);
    r', h' := r, h;
    for m := 0 to |metas|
      invariant Later(dirs, r, h, r', h') && r'.files == r.files
      invariant Done(dirs, conns, fileId, metas, m, h', r'.errors)
      invariant AllUp(net) && Readable(dirs, fileId, metas) ==> r'.errors == r.errors
    {
      if Readable(dirs, fileId, metas) {
        ReadableAt(dirs, fileId, metas, m);
      }
      var index := metas[m].shardIndex;
      var data := Get(dirs, fileId, index);
      var r1, h1 := r', h';
      if data.None? {
        r1 := r'.(errors := r'.errors + [ReadError(fileId, index)]);
        ReadFails(dirs, r', h', fileId, index);
        forall b | 0 <= b < |conns| ensures Accounted(dirs, h1, r1.errors, Key(conns[b], fileId, index)) {
          ReadFailsAccounts(dirs, r'.errors, h1, Key(conns[b], fileId, index));
        }
      } else {
        r1, h1 := PushShard(dirs, net, conns, fileId, index, data.value, r', h');
      }
      LaterDone(dirs, conns, fileId, metas, m, r', h', r1, h1);
      OneMoreDone(dirs, conns, fileId, metas, m, h1, r1.errors);
      LaterTrans(dirs, r, h, r', h', r1, h1);
      r', h' := r1, h1;
    }
  }

  lemma ReadableAt(dirs: Dirs, fileId: string, metas: seq<ShardMeta>, m: nat)
    requires Readable(dirs, fileId, metas) && m < |metas|
    ensures Get(dirs, fileId, metas[m].shardIndex).Some?
  {
  }

  lemma NothingDone(dirs: Dirs, conns: seq<string>, fileId: string, metas: seq<ShardMeta>, h: Held, errors: seq<Error>)
    ensures Done(dirs, conns, fileId, metas, 0, h, errors)
  {
  }

  /** The registered peers whose ID decodes, in registry order. */
  function Valid(peers: seq<string>, decodes: string -> bool): seq<string> {
    if peers == [] then []
    else
      var front, last := Valid(peers[..|peers| - 1], decodes), peers[|peers| - 1];
      if decodes(last) then front + [last] else front
  }

  lemma {:induction false} ValidHas(peers: seq<string>, decodes: string -> bool, peer: string)
    ensures peer in Valid(peers, decodes) <==> peer in peers && decodes(peer)
  {
    if peers != [] {
      ValidHas(peers[..|peers| - 1], decodes, peer);
      assert peers == peers[..|peers| - 1] + [peers[|peers| - 1]];
    }
  }

  /** Everything the index of the first n keys names is accounted for. */
  ghost predicate AllDone(dirs: Dirs, conns: seq<string>, fileIds: seq<string>, n: nat, h: Held, errors: seq<Error>)
    requires n <= |fileIds|
  {
    forall f :: 0 <= f < n ==> FileDone(dirs, conns, fileIds[f], h, errors)
  }

  ghost predicate FileDone(dirs: Dirs, conns: seq<string>, fileId: string, h: Held, errors: seq<Error>) {
    var metas := DirOf(dirs, fileId).meta; Done(dirs, conns, fileId, metas, |metas|, h, errors)
  }

  function NonEmpty(dirs: Dirs, fileIds: seq<string>, n: nat): nat
    requires n <= |fileIds|
  {
    if n == 0 then 0 else NonEmpty(dirs, fileIds, n - 1) + if DirOf(dirs, fileIds[n - 1]).meta == [] then 0 else 1
  }

  /** Rebalancer.Run; the context is cancelled after `budget` files. */
  method Run(dirs: Dirs, net: Net, peers: seq<string>, decodes: string -> bool, fileIds: seq<string>, budget: nat, h: Held)
    returns (r: Outcome, h': Held)
    ensures r.attempted == r.ok + NetErrors(r.errors)
    ensures Kept(dirs, h, h')
    ensures budget >= |fileIds| && peers != [] ==>
      r.files == NonEmpty(dirs, fileIds, |fileIds|)
      && AllDone(dirs, Valid(peers, decodes), fileIds, |fileIds|, h', r.errors)
    ensures AllUp(net) && (forall f :: 0 <= f < |fileIds| ==> Readable(dirs, fileIds[f], DirOf(dirs, fileIds[f]).meta)) ==>
      r.errors == []
  {
    hide Later, Kept, FileDone, AllDone, Valid, AllUp, Readable;
    r, h' := Outcome(0, 0, 0, []), h;
    ghost var start := r;
    LaterSelf(dirs, r, h);
    LaterMeans(dirs, start, h, r, h');
    if |peers| == 0 {
      return;
    }
    var conns := Connections(peers, decodes);
    NoFileDone(dirs, conns, fileIds, h, r.errors);
    var f := 0;
    while f < |fileIds| && f < budget
      invariant f <= |fileIds| && Later(dirs, start, h, r, h')
      invariant r.files == NonEmpty(dirs, fileIds, f) && AllDone(dirs, conns, fileIds, f, h', r.errors)
      invariant AllUp(net) && (forall g :: 0 <= g < |fileIds| ==> Readable(dirs, fileIds[g], DirOf(dirs, fileIds[g]).meta)) ==>
        r.errors == []
    {
      var r1, h1 := PushKey(dirs, net, conns, fileIds[f], r, h');
      OneMoreFile(dirs, conns, fileIds, f, r, h', r1, h1);
      LaterTrans(dirs, start, h, r, h', r1, h1);
      r, h' := r1, h1;
      f := f + 1;
    }
    LaterMeans(dirs, start, h, r, h');
  }

  /** One store key: nothing to do without an index, else all its shards. */
  method PushKey(dirs: Dirs, net: Net, conns: seq<string>, fileId: string, r: Outcome, h: Held)
    returns (r': Outcome, h': Held)
    ensures Later(dirs, r, h, r', h') && FileDone(dirs, conns, fileId, h', r'.errors)
    ensures r'.files == r.files + if DirOf(dirs, fileId).meta == [] then 0 else 1
    ensures AllUp(net) && Readable(dirs, fileId, DirOf(dirs, fileId).meta) ==> r'.errors == r.errors
  {
    hide Later, Done;
    var metas := DirOf(dirs, fileId).meta;
    r', h' := r, h;
    if |metas| == 0 {
      LaterSelf(dirs, r, h);
      NothingDone(dirs, conns, fileId, metas, h, r.errors);
      return;
    }
    var counted := r.(files := r.files + 1);
    MoreFiles(dirs, r, h);
    r', h' := PushFile(dirs, net, conns, fileId, metas, counted, h);
    LaterTrans(dirs, r, h, counted, h, r', h');
  }

  lemma NoFileDone(dirs: Dirs, conns: seq<string>, fileIds: seq<string>, h: Held, errors: seq<Error>)
    ensures AllDone(dirs, conns, fileIds, 0, h, errors)
  {
  }

  lemma LaterMeans(dirs: Dirs, start: Outcome, h: Held, r: Outcome, h': Held)
    requires start == Outcome(0, 0, 0, []) && Later(dirs, start, h, r, h')
    ensures r.attempted == r.ok + NetErrors(r.errors) && Kept(dirs, h, h')
  {
  }

  lemma MoreFiles(dirs: Dirs, r: Outcome, h: Held)
    ensures Later(dirs, r, h, r.(files := r.files + 1), h)
  {
  }

  lemma OneMoreFile(dirs: Dirs, conns: seq<string>, fileIds: seq<string>, n: nat, r: Outcome, h: Held, r': Outcome, h': Held)
    requires n < |fileIds| && Later(dirs, r, h, r', h') && AllDone(dirs, conns, fileIds, n, h, r.errors)
    requires FileDone(dirs, conns, fileIds[n], h', r'.errors)
    ensures AllDone(dirs, conns, fileIds, n + 1, h', r'.errors)
  {
    hide Later, Done;
    forall f | 0 <= f < n ensures FileDone(dirs, conns, fileIds[f], h', r'.errors) {
      var metas := DirOf(dirs, fileIds[f]).meta;
      LaterDone(dirs, conns, fileIds[f], metas, |metas|, r, h, r', h');
    }
  }

  method Connections(peers: seq<string>, decodes: string -> bool) returns (conns: seq<string>)
    ensures conns == Valid(peers, decodes)
  {
    conns := [];
    for i := 0 to |peers|
      invariant conns == Valid(peers[..i], decodes)
    {
      assert peers[..i + 1][..i] == peers[..i];
      if decodes(peers[i]) {
        conns := conns + [peers[i]];
      }
    }
    assert peers[..|peers|] == peers;
  }

  // ---- A run without errors ------------------------------------------------

  lemma {:induction false} MetaLists(meta: seq<ShardMeta>, index: int)
    requires index in MetaTable(meta)
    ensures exists i :: 0 <= i < |meta| && meta[i].shardIndex == index
  {
    if meta[0].shardIndex != index {
      MetaLists(meta[1..], index);
      var i :| 0 <= i < |meta[1..]| && meta[1..][i].shardIndex == index;
      assert meta[i + 1].shardIndex == index;
    }
  }

  /** When meta.json is the exact index, a run that ends without errors leaves every
      registered buddy with a valid peer ID holding every stored shard of every given key. */
  lemma ErrorFreeRunReplicates(dirs: Dirs, t: Table, peers: seq<string>, decodes: string -> bool, fileIds: seq<string>,
                               h: Held, peer: string, fileId: string, index: int)
    requires Exact(dirs, t) && AllDone(dirs, Valid(peers, decodes), fileIds, |fileIds|, h, [])
    requires peer in peers && decodes(peer) && fileId in fileIds && fileId in t && index in t[fileId]
    ensures Key(peer, fileId, index) in h && h[Key(peer, fileId, index)] == t[fileId][index].data
  {
    ValidHas(peers, decodes, peer);
    var conns, metas := Valid(peers, decodes), DirOf(dirs, fileId).meta;
    var b :| 0 <= b < |conns| && conns[b] == peer;
    var f :| 0 <= f < |fileIds| && fileIds[f] == fileId;
    assert FileDone(dirs, conns, fileIds[f], h, []);
    assert DirExact(dirs[fileId], fileId, t[fileId]);
    assert index in RowMeta(fileId, t[fileId]);
    MetaLists(metas, index);
    var i :| 0 <= i < |metas| && metas[i].shardIndex == index;
    assert Accounted(dirs, h, [], Key(conns[b], fileId, metas[i].shardIndex));
  }

  /** An exact index names only shards that can be read. */
  lemma ExactIsReadable(dirs: Dirs, t: Table, fileId: string)
    requires Exact(dirs, t)
    ensures Readable(dirs, fileId, DirOf(dirs, fileId).meta)
  {
    if fileId in t {
      assert DirExact(dirs[fileId], fileId, t[fileId]);
      var metas := dirs[fileId].meta;
      forall m | 0 <= m < |metas| ensures Get(dirs, fileId, metas[m].shardIndex).Some? {
        ListedInTable(metas, m);
      }
    }
  }

  lemma {:induction false} ListedInTable(meta: seq<ShardMeta>, m: nat)
    requires m < |meta|
    ensures meta[m].shardIndex in MetaTable(meta)
  {
    if m > 0 {
      ListedInTable(meta[1..], m - 1);
    }
  }
}
