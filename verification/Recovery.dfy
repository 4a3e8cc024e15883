/** Restoring one backed-up content from stores that have lost or damaged some of its shards. */
module Recovery {
  import opened Base
  import opened Foreign
  import opened Protocol
  import opened Chunker
  import opened Codec
  import opened Restore
  import opened Backup
  import Compress
  import Storage

  /** One machine: its libraries, its master key and its Reed-Solomon scheme. */
  datatype Host = Host(lib: Lib, masterKey: bytes, s: Scheme)

  ghost predicate HostOk(h: Host) {
    Contracts(h.lib, h.s)
  }

  function JobOf(h: Host, content: bytes): Job {
    Job(h.lib, h.masterKey, h.s, content)
  }

  function KeyOf(h: Host, content: bytes): string
    requires ShaContract(h.lib)
  {
    StoreKey(FileHash(h.lib, content))
  }

  /** The entry a completed backup of the content leaves. */
  ghost predicate EntryOf(h: Host, e: ManifestEntry, content: bytes)
    requires HostOk(h)
  {
    var job := JobOf(h, content);
    && e.hash == Hex(job.Hash()) && e.size == |content| && e.scheme == h.s && e.compressed
    && job.Shards() >= 0 && e.shards == LocationList(job, job.Shards())
  }

  /** The blob decrypts under the file's key and index g. */
  predicate Opens(h: Host, content: bytes, g: nat, blob: bytes) {
    DecryptShard(h.lib, JobOf(h, content).FileKey(), g, blob).Some?
  }

  /** It decrypts to shard g of the content. */
  predicate Genuine(h: Host, content: bytes, g: nat, blob: bytes) {
    DecryptShard(h.lib, JobOf(h, content).FileKey(), g, blob) == Some(ShardOf(JobOf(h, content), g))
  }

  /** A blob under this key is genuine or does not authenticate. */
  predicate Harmless(h: Host, content: bytes, g: nat, blob: bytes) {
    Opens(h, content, g, blob) ==> Genuine(h, content, g, blob)
  }

  ghost predicate SourcesHarmless(h: Host, content: bytes, src: Sources)
    requires HostOk(h)
  {
    forall g: nat :: g < JobOf(h, content).Shards() && Fetch(src, KeyOf(h, content), g).Some? ==>
      Harmless(h, content, g, Fetch(src, KeyOf(h, content), g).value)
  }

  /** Shard g can be had: the local copy opens, or there is none and the first buddy that
      answers sends one that opens. */
  predicate Obtains(h: Host, content: bytes, src: Sources, g: nat)
    requires ShaContract(h.lib)
  {
    var blob := Fetch(src, KeyOf(h, content), g);
    blob.Some? && Opens(h, content, g, blob.value)
  }

  /** How many of the n shards from `from` on can be had. */
  function Obtained(h: Host, content: bytes, src: Sources, from: nat, n: nat): nat
    requires ShaContract(h.lib)
  {
    if n == 0 then 0
    else Obtained(h, content, src, from, n - 1) + if Obtains(h, content, src, from + n - 1) then 1 else 0
  }

  /** Every chunk has dataShards shards that can be had. */
  ghost predicate Recoverable(h: Host, content: bytes, src: Sources)
    requires HostOk(h)
  {
    forall ci: nat :: ci < JobOf(h, content).Chunks() ==> ChunkRecoverable(h, content, src, ci)
  }

  predicate ChunkRecoverable(h: Host, content: bytes, src: Sources, ci: nat)
    requires ShaContract(h.lib) && h.s.Total() >= 0
  {
    Obtained(h, content, src, ci * h.s.Total(), h.s.Total()) >= h.s.dataShards
  }

  // ---- What restore gathers ------------------------------------------------

  lemma JobFields(h: Host, content: bytes)
    requires HostOk(h)
    ensures var job := JobOf(h, content);
      && job.T() == h.s.Total() > 0 && job.lib == h.lib && job.s == h.s && |job.Hash()| == HASH_SIZE
      && job.Hash() == FileHash(h.lib, content) && job.content == content
      && RsContract(h.lib, h.s) && ShaContract(h.lib) && job.Shards() == job.Chunks() * h.s.Total()
      && h.s.dataShards > 0
  {
  }

  lemma LocationAt(h: Host, e: ManifestEntry, content: bytes, ci: nat, si: nat)
    requires HostOk(h) && EntryOf(h, e, content) && si < h.s.Total()
    requires ci < JobOf(h, content).Chunks() && Divides(e, JobOf(h, content).Chunks())
    ensures |Locations(e, JobOf(h, content).Chunks(), ci)| == h.s.Total()
    ensures Locations(e, JobOf(h, content).Chunks(), ci)[si].shardIndex == ci * h.s.Total() + si
    ensures 0 <= ci * h.s.Total() + si < JobOf(h, content).Shards()
  {
    LocationBounds(JobOf(h, content).Chunks(), ci, h.s.Total());
  }

  lemma RawAt(h: Host, e: ManifestEntry, content: bytes, src: Sources, ci: nat, si: nat)
    requires HostOk(h) && EntryOf(h, e, content) && si < h.s.Total()
    requires ci < JobOf(h, content).Chunks() && Divides(e, JobOf(h, content).Chunks())
    ensures |RawShards(h.lib, h.masterKey, e, src, JobOf(h, content).Hash(), JobOf(h, content).Chunks(), ci)| == h.s.Total()
    ensures var job := JobOf(h, content);
      RawShards(h.lib, h.masterKey, e, src, job.Hash(), job.Chunks(), ci)[si]
        == OpenShard(h.lib, job.FileKey(), src, KeyOf(h, content), Locations(e, job.Chunks(), ci)[si])
  {
    hide OpenShard, Locations;
  }

  lemma OpensWhenObtained(h: Host, content: bytes, src: Sources, loc: ShardLocation)
    requires HostOk(h) && SourcesHarmless(h, content, src) && 0 <= loc.shardIndex < JobOf(h, content).Shards()
    ensures var job, g := JobOf(h, content), loc.shardIndex;
      OpenShard(h.lib, job.FileKey(), src, KeyOf(h, content), loc)
        == if Obtains(h, content, src, g) then ShardOf(job, g) else []
  {
    hide ShardOf, StoreKey, DecryptShard, Fetch;
  }

  /** Each gathered shard is the genuine one or an erasure, as it can be had or not. */
  lemma GathersShard(h: Host, e: ManifestEntry, content: bytes, src: Sources, ci: nat, si: nat)
    requires HostOk(h) && EntryOf(h, e, content) && SourcesHarmless(h, content, src)
    requires ci < JobOf(h, content).Chunks() && Divides(e, JobOf(h, content).Chunks()) && si < h.s.Total()
    ensures 0 <= ci * h.s.Total() + si
    ensures |RawShards(h.lib, h.masterKey, e, src, JobOf(h, content).Hash(), JobOf(h, content).Chunks(), ci)| == h.s.Total()
    ensures var job, g := JobOf(h, content), ci * h.s.Total() + si;
      && Split(h.lib, h.s, Body(job, ci)).Ok? && |Split(h.lib, h.s, Body(job, ci)).value| == h.s.Total()
      && Split(h.lib, h.s, Body(job, ci)).value[si] != []
      && RawShards(h.lib, h.masterKey, e, src, job.Hash(), job.Chunks(), ci)[si]
           == if Obtains(h, content, src, g) then Split(h.lib, h.s, Body(job, ci)).value[si] else []
  {
    hide *;
    var job := JobOf(h, content);
    JobFields(h, content);
    ShardAt(job, ci, si);
    LocationAt(h, e, content, ci, si);
    RawAt(h, e, content, src, ci, si);
    OpensWhenObtained(h, content, src, Locations(e, job.Chunks(), ci)[si]);
  }

  lemma {:induction false} PresentSnoc(shards: seq<bytes>, x: bytes)
    ensures Present(shards + [x]) == Present(shards) + if x == [] then 0 else 1
  {
    if shards == [] {
      assert [x][1..] == [];
      assert [] + [x] == [x];
      assert Present([x][1..]) == 0;
    } else {
      assert (shards + [x])[1..] == shards[1..] + [x];
      PresentSnoc(shards[1..], x);
    }
  }

  /** `raw` has a shard exactly where one can be had. */
  ghost predicate Tracks(h: Host, content: bytes, src: Sources, from: nat, raw: seq<bytes>)
    requires ShaContract(h.lib)
  {
    forall si: nat :: si < |raw| ==> (raw[si] != [] <==> Obtains(h, content, src, from + si))
  }

  lemma {:induction false} PresentIsObtained(h: Host, content: bytes, src: Sources, from: nat, raw: seq<bytes>)
    requires ShaContract(h.lib) && Tracks(h, content, src, from, raw)
    ensures Present(raw) == Obtained(h, content, src, from, |raw|)
  {
    hide Obtains;
    if raw != [] {
      var n := |raw| - 1;
      var front := raw[..n];
      forall si: nat | si < n ensures front[si] != [] <==> Obtains(h, content, src, from + si) {
        assert front[si] == raw[si];
      }
      PresentIsObtained(h, content, src, from, front);
      assert raw == front + [raw[n]];
      PresentSnoc(front, raw[n]);
    }
  }

  ghost function BodyList(job: Job): (bodies: seq<bytes>)
    ensures |bodies| == job.Chunks()
  {
    seq(job.Chunks(), ci requires 0 <= ci < job.Chunks() => Body(job, ci))
  }

  /** What restore gathers for a chunk: an erasure of its shards, with as many left as can be had. */
  lemma GathersChunk(h: Host, e: ManifestEntry, content: bytes, src: Sources, ci: nat)
    requires HostOk(h) && EntryOf(h, e, content) && SourcesHarmless(h, content, src)
    requires ci < JobOf(h, content).Chunks() && Divides(e, JobOf(h, content).Chunks())
    ensures var job := JobOf(h, content);
      var raw := RawShards(h.lib, h.masterKey, e, src, job.Hash(), job.Chunks(), ci);
      && Split(h.lib, h.s, Body(job, ci)).Ok? && Erasure(raw, Split(h.lib, h.s, Body(job, ci)).value)
      && (Present(raw) >= h.s.dataShards <==> ChunkRecoverable(h, content, src, ci))
  {
    hide *;
    var job := JobOf(h, content);
    JobFields(h, content);
    var raw := RawShards(h.lib, h.masterKey, e, src, job.Hash(), job.Chunks(), ci);
    var from := ci * h.s.Total();
    LocationBounds(job.Chunks(), ci, h.s.Total());
    EntryScheme(h, e, content);
    GathersShard(h, e, content, src, ci, 0);
    var shards := Split(h.lib, h.s, Body(job, ci)).value;
    forall si: nat | si < |raw|
      ensures raw[si] == [] || raw[si] == shards[si]
      ensures raw[si] != [] <==> Obtains(h, content, src, from + si)
    {
      GathersShard(h, e, content, src, ci, si);
    }
    IsErasure(raw, shards);
    DoesTrack(h, content, src, from, raw);
    PresentIsObtained(h, content, src, from, raw);
    ChunkMeans(h, content, src, ci);
  }

  lemma IsErasure(raw: seq<bytes>, full: seq<bytes>)
    requires |raw| == |full| && forall i :: 0 <= i < |raw| ==> raw[i] == [] || raw[i] == full[i]
    ensures Erasure(raw, full)
  {
  }

  lemma DoesTrack(h: Host, content: bytes, src: Sources, from: nat, raw: seq<bytes>)
    requires ShaContract(h.lib) && forall si: nat :: si < |raw| ==> (raw[si] != [] <==> Obtains(h, content, src, from + si))
    ensures Tracks(h, content, src, from, raw)
  {
    hide Obtains;
  }

  lemma ChunkMeans(h: Host, content: bytes, src: Sources, ci: nat)
    requires ShaContract(h.lib) && h.s.Total() >= 0
    ensures ci * h.s.Total() >= 0
    ensures ChunkRecoverable(h, content, src, ci) <==> Obtained(h, content, src, ci * h.s.Total(), h.s.Total()) >= h.s.dataShards
  {
  }

  lemma BodiesFit(h: Host, e: ManifestEntry, content: bytes)
    requires HostOk(h) && EntryOf(h, e, content)
    ensures Divides(e, JobOf(h, content).Chunks())
    ensures EntryFor(h.lib, e, content, BodyList(JobOf(h, content)))
  {
  }

  /** With harmless sources, a restore gives the content back and passes its check if every
      chunk has dataShards shards that can be had, and fails if some chunk has fewer. */
  lemma RestoresIff(h: Host, e: ManifestEntry, content: bytes, src: Sources)
    requires HostOk(h) && EntryOf(h, e, content) && SourcesHarmless(h, content, src)
    ensures Recoverable(h, content, src) ==> RestoreEntry(h.lib, h.masterKey, e, src) == Ok(Restored(content, true))
    ensures !Recoverable(h, content, src) ==> RestoreEntry(h.lib, h.masterKey, e, src).Err?
  {
    BodiesFit(h, e, content);
    JobFields(h, content);
    var job := JobOf(h, content);
    var bodies := BodyList(job);
    EntryScheme(h, e, content);
    hide EntryOf, EntryFor, SourcesHarmless, RawShards, Split, ChunkRecoverable, Present, Erasure;
    forall ci: nat | ci < |bodies|
      ensures var raw := RawShards(h.lib, h.masterKey, e, src, job.Hash(), |bodies|, ci);
        && Split(h.lib, h.s, bodies[ci]).Ok? && Erasure(raw, Split(h.lib, h.s, bodies[ci]).value)
        && (Present(raw) >= h.s.dataShards <==> ChunkRecoverable(h, content, src, ci))
    {
      GathersChunk(h, e, content, src, ci);
    }
    assert GenuineOrLost(h.lib, h.masterKey, e, src, job.Hash(), bodies);
    assert Enough(h.lib, h.masterKey, e, src, job.Hash(), |bodies|) <==> Recoverable(h, content, src);
    RestoreExact(h.lib, h.masterKey, e, src, content, bodies);
  }

  lemma EntryScheme(h: Host, e: ManifestEntry, content: bytes)
    requires HostOk(h) && EntryOf(h, e, content)
    ensures e.scheme == h.s
  {
  }

  // ---- In terms of the stores ----------------------------------------------

  /** The earliest buddy that has shard g has a copy that opens. */
  ghost predicate EarliestOpens(h: Host, content: bytes, buddies: Buddies, g: nat)
    requires ShaContract(h.lib)
  {
    exists b :: HoldsFirst(buddies, KeyOf(h, content), g, b) && Opens(h, content, g, buddies[b][(KeyOf(h, content), g as int)])
  }

  /** A shard can be had if and only if its local file opens, or there is no local file and the
      earliest buddy that has the shard has a copy that opens. */
  lemma ObtainsIff(h: Host, content: bytes, src: Sources, g: nat)
    requires ShaContract(h.lib)
    ensures var local := Storage.Get(src.local, KeyOf(h, content), g);
      Obtains(h, content, src, g) <==>
        if local.Some? then Opens(h, content, g, local.value) else EarliestOpens(h, content, src.buddies, g)
  {
    hide Opens, FirstReply, HoldsFirst, KeyOf, Storage.Get;
    FirstReplyIff(src.buddies, KeyOf(h, content), g);
    HoldersHave(src.buddies, KeyOf(h, content), g);
    if Storage.Get(src.local, KeyOf(h, content), g).None? {
      var reply := FirstReply(src.buddies, KeyOf(h, content), g);
      if reply.Some? {
        var b :| HoldsFirst(src.buddies, KeyOf(h, content), g, b) && src.buddies[b][(KeyOf(h, content), g as int)] == reply.value;
        assert forall c :: HoldsFirst(src.buddies, KeyOf(h, content), g, c) ==> c == b;
      }
    }
  }

  lemma HoldersHave(buddies: Buddies, key: string, g: int)
    ensures forall b :: HoldsFirst(buddies, key, g, b) ==> 0 <= b < |buddies| && (key, g) in buddies[b]
    ensures forall b, c :: HoldsFirst(buddies, key, g, b) && HoldsFirst(buddies, key, g, c) ==> b == c
  {
  }

  /** How many of the n shards from `from` on have an earliest holder whose copy opens. */
  ghost function EarliestOpen(h: Host, content: bytes, buddies: Buddies, from: nat, n: nat): nat
    requires ShaContract(h.lib)
  {
    if n == 0 then 0
    else EarliestOpen(h, content, buddies, from, n - 1) + if EarliestOpens(h, content, buddies, from + n - 1) then 1 else 0
  }

  lemma {:induction false} AllFromBuddies(h: Host, content: bytes, src: Sources, from: nat, n: nat)
    requires ShaContract(h.lib)
    requires forall g: nat :: from <= g < from + n ==> Storage.Get(src.local, KeyOf(h, content), g).None?
    ensures Obtained(h, content, src, from, n) == EarliestOpen(h, content, src.buddies, from, n)
  {
    hide Obtains, EarliestOpens, Storage.Get, KeyOf;
    if n > 0 {
      AllFromBuddies(h, content, src, from, n - 1);
      ObtainsIff(h, content, src, from + n - 1);
    }
  }

  /** No buddy's copy opens as anything but the shard it stands for. */
  ghost predicate CopiesHarmless(h: Host, content: bytes, buddies: Buddies)
    requires HostOk(h)
  {
    forall b: nat, g: nat :: b < |buddies| && g < JobOf(h, content).Shards() ==> CopyHarmless(h, content, buddies[b], g)
  }

  predicate CopyHarmless(h: Host, content: bytes, buddy: map<(string, int), bytes>, g: nat)
    requires ShaContract(h.lib)
  {
    (KeyOf(h, content), g as int) in buddy ==> Harmless(h, content, g, buddy[(KeyOf(h, content), g as int)])
  }

  /** With no local file left, the content comes back if and only if each chunk has dataShards
      shards whose earliest holder among the buddies has a copy that opens. */
  lemma RestoresFromBuddiesIff(h: Host, e: ManifestEntry, content: bytes, local: Storage.Dirs, buddies: Buddies)
    requires HostOk(h) && EntryOf(h, e, content) && CopiesHarmless(h, content, buddies)
    requires forall g: nat :: g < JobOf(h, content).Shards() ==> Storage.Get(local, KeyOf(h, content), g).None?
    ensures var r := RestoreEntry(h.lib, h.masterKey, e, Sources(local, buddies));
      if forall ci: nat :: ci < JobOf(h, content).Chunks() ==> EnoughHolders(h, content, buddies, ci)
      then r == Ok(Restored(content, true)) else r.Err?
  {
    hide HostOk, EntryOf, Opens, Genuine, KeyOf, Storage.Get, FirstReply, Obtained, EarliestOpen;
    JobFields(h, content);
    var src := Sources(local, buddies);
    forall g: nat | g < JobOf(h, content).Shards() && Fetch(src, KeyOf(h, content), g).Some?
      ensures Harmless(h, content, g, Fetch(src, KeyOf(h, content), g).value)
    {
      FirstReplyIff(buddies, KeyOf(h, content), g);
      var d := FirstReply(buddies, KeyOf(h, content), g).value;
      var b :| HoldsFirst(buddies, KeyOf(h, content), g, b) && buddies[b][(KeyOf(h, content), g as int)] == d;
      assert CopyHarmless(h, content, buddies[b], g);
    }
    RestoresIff(h, e, content, src);
    forall ci: nat | ci < JobOf(h, content).Chunks()
      ensures ChunkRecoverable(h, content, src, ci) <==> EnoughHolders(h, content, buddies, ci)
    {
      LocationBounds(JobOf(h, content).Chunks(), ci, h.s.Total());
      AllFromBuddies(h, content, src, ci * h.s.Total(), h.s.Total());
    }
  }

  ghost predicate EnoughHolders(h: Host, content: bytes, buddies: Buddies, ci: nat)
    requires ShaContract(h.lib) && h.s.Total() >= 0
  {
    EarliestOpen(h, content, buddies, ci * h.s.Total(), h.s.Total()) >= h.s.dataShards
  }

  // ---- Bad local copies ----------------------------------------------------

  /** Every shard of the content has a local file, genuine or not openable. */
  ghost predicate AllLocal(h: Host, content: bytes, local: Storage.Dirs)
    requires HostOk(h)
  {
    forall g: nat :: g < JobOf(h, content).Shards() ==>
      var blob := Storage.Get(local, KeyOf(h, content), g);
      blob.Some? && Harmless(h, content, g, blob.value)
  }

  /** Then only the local copies count: whatever the buddies hold, the restore succeeds if
      and only if each chunk has dataShards local copies that open. */
  lemma LocalCopiesDecide(h: Host, e: ManifestEntry, content: bytes, local: Storage.Dirs, buddies: Buddies)
    requires HostOk(h) && EntryOf(h, e, content) && AllLocal(h, content, local)
    ensures var r := RestoreEntry(h.lib, h.masterKey, e, Sources(local, buddies));
      if Recoverable(h, content, Sources(local, [])) then r == Ok(Restored(content, true)) else r.Err?
  {
    var alone := Sources(local, []);
    assert SourcesHarmless(h, content, alone);
    RestoresIff(h, e, content, alone);
    PlanKey(h, e, content);
    EntryIndices(h, e, content);
    hide EntryOf, HostOk, Harmless, FirstReply;
    LocalCopiesHideBuddies(h.lib, h.masterKey, e, local, buddies, []);
  }

  lemma PlanKey(h: Host, e: ManifestEntry, content: bytes)
    requires HostOk(h) && EntryOf(h, e, content)
    ensures PlanFor(h.lib, h.masterKey, e).Ok? ==> PlanFor(h.lib, h.masterKey, e).value.key == KeyOf(h, content)
  {
    hide LocationList;
    JobFields(h, content);
    UnhexHex(FileHash(h.lib, content));
  }

  lemma EntryIndices(h: Host, e: ManifestEntry, content: bytes)
    requires HostOk(h) && EntryOf(h, e, content)
    ensures RsShape(h.lib) && |e.shards| == JobOf(h, content).Shards()
    ensures forall i :: 0 <= i < |e.shards| ==> e.shards[i].shardIndex == i
  {
  }

  predicate HoldsShard(h: Host, content: bytes, buddy: map<(string, int), bytes>, g: nat)
    requires ShaContract(h.lib)
  {
    (KeyOf(h, content), g as int) in buddy && Genuine(h, content, g, buddy[(KeyOf(h, content), g as int)])
  }

  /** Every buddy holds every shard. */
  ghost predicate AllBuddiesHold(h: Host, content: bytes, buddies: Buddies)
    requires HostOk(h)
  {
    forall b: nat, g: nat :: b < |buddies| && g < JobOf(h, content).Shards() ==> HoldsShard(h, content, buddies[b], g)
  }

  /** If every local copy is present and none opens, the restore fails although every buddy
      holds every shard; deleting the local copies makes the same restore succeed. */
  lemma BadCopiesHideGoodOnes(h: Host, e: ManifestEntry, content: bytes, local: Storage.Dirs, buddies: Buddies)
    requires HostOk(h) && EntryOf(h, e, content) && content != []
    requires forall g: nat :: g < JobOf(h, content).Shards() ==>
      Storage.Get(local, KeyOf(h, content), g).Some? && !Opens(h, content, g, Storage.Get(local, KeyOf(h, content), g).value)
    requires buddies != [] && AllBuddiesHold(h, content, buddies)
    ensures RestoreEntry(h.lib, h.masterKey, e, Sources(local, buddies)).Err?
    ensures RestoreEntry(h.lib, h.masterKey, e, Sources(Storage.Delete(local, KeyOf(h, content)), buddies))
         == Ok(Restored(content, true))
  {
    JobFields(h, content);
    HasAChunk(h, content);
    hide Opens, Genuine, HostOk, EntryOf, KeyOf;
    var bad, good := Sources(local, buddies), Sources(Storage.Delete(local, KeyOf(h, content)), buddies);
    forall g: nat | g < JobOf(h, content).Shards()
      ensures Fetch(good, KeyOf(h, content), g).Some? && Genuine(h, content, g, Fetch(good, KeyOf(h, content), g).value)
    {
      assert HoldsShard(h, content, buddies[0], g);
      GenuineOpens(h, content, g, Fetch(good, KeyOf(h, content), g).value);
    }
    RestoresIff(h, e, content, bad);
    RestoresIff(h, e, content, good);
    NoneObtained(h, content, bad);
    AllObtained(h, content, good);
  }

  lemma GenuineOpens(h: Host, content: bytes, g: nat, blob: bytes)
    requires Genuine(h, content, g, blob)
    ensures Opens(h, content, g, blob)
  {
  }

  lemma HasAChunk(h: Host, content: bytes)
    requires content != []
    ensures JobOf(h, content).Chunks() > 0
  {
  }

  lemma NoneObtained(h: Host, content: bytes, src: Sources)
    requires HostOk(h) && JobOf(h, content).Chunks() > 0
    requires forall g: nat :: g < JobOf(h, content).Shards() ==> !Obtains(h, content, src, g)
    ensures !Recoverable(h, content, src)
  {
    JobFields(h, content);
    LocationBounds(JobOf(h, content).Chunks(), 0, h.s.Total());
    hide Obtains, HostOk;
    CountNone(h, content, src, 0, h.s.Total());
    assert !ChunkRecoverable(h, content, src, 0);
  }

  lemma {:induction false} CountNone(h: Host, content: bytes, src: Sources, from: nat, n: nat)
    requires ShaContract(h.lib) && forall g: nat :: from <= g < from + n ==> !Obtains(h, content, src, g)
    ensures Obtained(h, content, src, from, n) == 0
  {
    hide Obtains;
    if n > 0 {
      CountNone(h, content, src, from, n - 1);
    }
  }

  lemma AllObtained(h: Host, content: bytes, src: Sources)
    requires HostOk(h)
    requires forall g: nat :: g < JobOf(h, content).Shards() ==> Obtains(h, content, src, g)
    ensures Recoverable(h, content, src)
  {
    JobFields(h, content);
    hide Obtains, HostOk;
    forall ci: nat | ci < JobOf(h, content).Chunks() ensures ChunkRecoverable(h, content, src, ci) {
      LocationBounds(JobOf(h, content).Chunks(), ci, h.s.Total());
      CountAll(h, content, src, ci * h.s.Total(), h.s.Total());
    }
  }

  lemma {:induction false} CountAll(h: Host, content: bytes, src: Sources, from: nat, n: nat)
    requires ShaContract(h.lib) && forall g: nat :: from <= g < from + n ==> Obtains(h, content, src, g)
    ensures Obtained(h, content, src, from, n) == n
  {
    hide Obtains;
    if n > 0 {
      CountAll(h, content, src, from, n - 1);
    }
  }

  function EmptyFiles(n: nat): map<int, bytes> {
    if n == 0 then map[] else EmptyFiles(n - 1)[n - 1 := []]
  }

  lemma {:induction false} EmptyFilesAt(n: nat, g: nat)
    ensures g in EmptyFiles(n) <==> g < n
    ensures g < n ==> EmptyFiles(n)[g] == []
  {
    if n > 0 {
      EmptyFilesAt(n - 1, g);
    }
  }

  /** What a buddy holds after the first n shards of a backup were pushed to it. */
  ghost function PushedShards(job: Job, nonces: Nonces, key: string, n: nat): map<(string, int), bytes> {
    if n == 0 then map[] else PushedShards(job, nonces, key, n - 1)[(key, n - 1) := CipherOf(job, nonces, n - 1)]
  }

  lemma {:induction false} PushedAt(job: Job, nonces: Nonces, key: string, n: nat, g: nat)
    requires g < n
    ensures (key, g as int) in PushedShards(job, nonces, key, n) && PushedShards(job, nonces, key, n)[(key, g as int)] == CipherOf(job, nonces, g)
  {
    hide CipherOf;
    if g < n - 1 {
      PushedAt(job, nonces, key, n - 1, g);
    }
  }

  /** Such stores exist for every content: empty local files, and buddies with what a backup encrypted. */
  lemma BadCopiesExist(h: Host, content: bytes, nonces: Nonces, count: nat) returns (local: Storage.Dirs, buddies: Buddies)
    requires HostOk(h) && NoncesOk(nonces) && count > 0
    ensures forall g: nat :: g < JobOf(h, content).Shards() ==>
      Storage.Get(local, KeyOf(h, content), g).Some? && !Opens(h, content, g, Storage.Get(local, KeyOf(h, content), g).value)
    ensures |buddies| == count && AllBuddiesHold(h, content, buddies)
  {
    JobFields(h, content);
    hide HostOk, KeyOf, Genuine, CipherOf, NoncesOk, EmptyFiles, PushedShards;
    var job, key := JobOf(h, content), KeyOf(h, content);
    var n := job.Shards();
    local := map[key := Storage.Dir(EmptyFiles(n), [])];
    buddies := seq(count, i requires 0 <= i < count => PushedShards(job, nonces, key, n));
    forall g: nat | g < n
      ensures Storage.Get(local, key, g) == Some([]) && !Opens(h, content, g, [])
      ensures HoldsShard(h, content, PushedShards(job, nonces, key, n), g)
    {
      EmptyFilesAt(n, g);
      PushedAt(job, nonces, key, n, g);
      CipherIsGenuine(h, content, nonces, g);
    }
  }

  lemma CipherIsGenuine(h: Host, content: bytes, nonces: Nonces, g: nat)
    requires HostOk(h) && NoncesOk(nonces)
    ensures Genuine(h, content, g, CipherOf(JobOf(h, content), nonces, g))
  {
    hide ShardOf;
    var job := JobOf(h, content);
    DecryptEncrypt(h.lib, job.FileKey(), g, nonces(g), ShardOf(job, g));
  }
}
