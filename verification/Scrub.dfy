/** internal/scrub: one pass over the shards kept for buddies. */
module Scrub {
  import opened Base
  import opened Foreign
  import opened Paths
  import opened BuddyStore

  datatype Report = Report(checked: nat, ok: nat, corrupted: nat, revived: nat, failed: nat)

  datatype Outcome = Healthy | Revived | Failed

  /** What a revive of each shard brings back: the owner's answer, or nothing when the peer
      ID, the connection or the fetch fails. */
  type Fetch = Ref -> Option<bytes>

  function Judge(lib: Lib, files: Files, fetch: Fetch, r: Ref): Outcome {
    if Verified(lib, files, r) then Healthy
    else if fetch(r).Some? && Stored(lib, files, r, fetch(r).value).Some? then Revived
    else Failed
  }

  function Handle(lib: Lib, files: Files, fetch: Fetch, r: Ref): Files {
    if Judge(lib, files, fetch, r).Revived? then Stored(lib, files, r, fetch(r).value).value else files
  }

  function Tally(report: Report, o: Outcome): Report {
    match o
    case Healthy => report.(ok := report.ok + 1)
    case Revived => report.(corrupted := report.corrupted + 1, revived := report.revived + 1)
    case Failed => report.(corrupted := report.corrupted + 1, failed := report.failed + 1)
  }

  /** The files after the first k references. */
  function Pass(lib: Lib, files: Files, fetch: Fetch, refs: seq<Ref>, k: nat): Files
    requires k <= |refs|
  {
    if k == 0 then files else Handle(lib, Pass(lib, files, fetch, refs, k - 1), fetch, refs[k - 1])
  }

  function Counted(lib: Lib, files: Files, fetch: Fetch, refs: seq<Ref>, k: nat): (r: Report)
    requires k <= |refs|
    ensures r.checked == |refs| && r.ok + r.corrupted == k && r.revived + r.failed == r.corrupted
  {
    if k == 0 then Report(|refs|, 0, 0, 0, 0)
    else
      Tally(Counted(lib, files, fetch, refs, k - 1),
            Judge(lib, Pass(lib, files, fetch, refs, k - 1), fetch, refs[k - 1]))
  }

  /** RunOnce; the context is cancelled after `budget` shards. */
  method RunOnce(store: Store, fetch: Fetch, budget: nat) returns (r: Report, ghost walk: seq<string>)
    modifies store
    ensures Walks(walk, old(store.files))
    ensures var refs := Listed(walk);
      var k := if budget < |refs| then budget else |refs|;
      && store.files == Pass(store.lib, old(store.files), fetch, refs, k)
      && r == Counted(store.lib, old(store.files), fetch, refs, k)
      && (budget >= |refs| ==> r.checked == r.ok + r.corrupted && r.corrupted == r.revived + r.failed)
    ensures StoreOk(old(store.files)) && budget >= |Listed(walk)| ==>
      Exact(store.lib, old(store.files), fetch, Listed(walk), store.files, r)
  {
    hide Verified, Stored, Judge, Listed, Walks, StoreOk, Exact;
    ghost var before := store.files;
    var refs;
    refs, walk := store.ListAll();
    r := Report(|refs|, 0, 0, 0, 0);
    var i := 0;
    while i < |refs| && i < budget
      invariant i <= |refs| && i <= budget
      invariant store.files == Pass(store.lib, before, fetch, refs, i)
      invariant r == Counted(store.lib, before, fetch, refs, i)
    {
      var o := ScrubOne(store, fetch, refs[i]);
      r := Tally(r, o);
      i := i + 1;
    }
    if StoreOk(before) {
      PassIsExact(store.lib, before, fetch, walk);
    }
  }

  /** Verify, and on failure revive. */
  method ScrubOne(store: Store, fetch: Fetch, ref: Ref) returns (o: Outcome)
    modifies store
    ensures o == Judge(store.lib, old(store.files), fetch, ref)
    ensures store.files == Handle(store.lib, old(store.files), fetch, ref)
  {
    var ok := store.Verify(ref);
    if ok {
      return Healthy;
    }
    var data := fetch(ref);
    if data.None? {
      return Failed;
    }
    ok := store.PutWithHash(ref, data.value);
    o := if ok then Revived else Failed;
  }

  // ---- What a pass leaves behind -------------------------------------------

  /** The sidecar is missing, or is not the digest of the bytes now in the shard file. */
  predicate Corrupt(lib: Lib, files: Files, r: Ref)
    requires Proper(r) && ShardPath(r).value in files
  {
    HashPath(r).value !in files || lib.sha(files[ShardPath(r).value]) != files[HashPath(r).value]
  }

  /** A corrupt shard whose owner answers ends up as the answer and its digest; every other
      shard keeps its files. */
  ghost predicate Fate(lib: Lib, files: Files, end: Files, fetch: Fetch, r: Ref)
    requires Proper(r) && ShardPath(r).value in files
  {
    var p, hp := ShardPath(r).value, HashPath(r).value;
    if Corrupt(lib, files, r) && fetch(r).Some?
    then p in end && end[p] == fetch(r).value && hp in end && end[hp] == lib.sha(fetch(r).value)
    else SameShard(files, end, r)
  }

  /** The judgement without the code's own check: by digest, and by whether the owner answers. */
  function Expected(lib: Lib, files: Files, fetch: Fetch, r: Ref): Outcome
    requires Proper(r) && ShardPath(r).value in files
  {
    if !Corrupt(lib, files, r) then Healthy else if fetch(r).Some? then Revived else Failed
  }

  lemma JudgedAsExpected(lib: Lib, files: Files, fetch: Fetch, r: Ref)
    requires StoreOk(files) && Proper(r) && ShardPath(r).value in files
    ensures Judge(lib, files, fetch, r) == Expected(lib, files, fetch, r)
  {
    hide StoreOk, Stored;
    if fetch(r).Some? {
      PresentIsStorable(lib, files, r, fetch(r).value);
    }
  }

  lemma SamePresence(a: Files, b: Files, r: Ref)
    requires Proper(r) && SameShard(a, b, r)
    ensures ShardPath(r).value in a <==> ShardPath(r).value in b
  {
  }

  lemma SameShardTrans(a: Files, b: Files, c: Files, r: Ref)
    requires Proper(r) && SameShard(a, b, r) && SameShard(b, c, r)
    ensures SameShard(a, c, r)
  {
  }

  lemma HandleSpares(lib: Lib, files: Files, fetch: Fetch, r: Ref, other: Ref)
    requires Proper(r) && Proper(other) && r != other
    ensures SameShard(files, Handle(lib, files, fetch, r), other)
  {
    hide Verified, ShardPath, HashPath, Stored, Proper;
    if Judge(lib, files, fetch, r).Revived? {
      StoreVerifiesAndSpares(lib, files, r, fetch(r).value, other);
    }
  }

  /** A shard that is there can be written again. */
  lemma PresentIsStorable(lib: Lib, files: Files, r: Ref, data: bytes)
    requires StoreOk(files) && Proper(r) && ShardPath(r).value in files
    ensures Stored(lib, files, r, data).Some?
  {
    hide ShardPath, HashPath, ManifestPath, Blocked, OwnName;
    ShardBlockedIff(files, r);
    SafeHasPaths(r, r.owner);
    if r.fileId == MANIFEST {
      assert OfManifestName(ShardPath(r).value, r, r.owner);
    }
  }

  lemma HandleDecides(lib: Lib, files: Files, s: Files, fetch: Fetch, r: Ref)
    requires Proper(r) && SameShard(files, s, r) && StoreOk(files) && StoreOk(s) && ShardPath(r).value in files
    ensures Judge(lib, s, fetch, r) == Expected(lib, files, fetch, r)
    ensures Fate(lib, files, Handle(lib, s, fetch, r), fetch, r)
  {
    hide ShardPath, HashPath, Stored, Proper, StoreOk;
    SamePresence(files, s, r);
    JudgedAsExpected(lib, s, fetch, r);
    if Judge(lib, s, fetch, r).Revived? {
      StoreVerifiesAndSpares(lib, s, r, fetch(r).value, r);
    }
  }

  lemma FateStays(lib: Lib, files: Files, s: Files, fetch: Fetch, r: Ref, other: Ref)
    requires Proper(r) && Proper(other) && r != other && ShardPath(r).value in files && Fate(lib, files, s, fetch, r)
    ensures Fate(lib, files, Handle(lib, s, fetch, other), fetch, r)
  {
    hide Handle, Proper, ShardPath, HashPath, Corrupt;
    HandleSpares(lib, s, fetch, other, r);
  }

  /** A pass keeps the store in shape. */
  lemma {:induction false} PassKeepsOk(lib: Lib, files: Files, fetch: Fetch, refs: seq<Ref>, k: nat)
    requires StoreOk(files) && Distinct(refs) && k <= |refs|
    ensures StoreOk(Pass(lib, files, fetch, refs, k))
  {
    hide StoreOk, Stored, Verified, Proper;
    if k > 0 {
      PassKeepsOk(lib, files, fetch, refs, k - 1);
      var s, r := Pass(lib, files, fetch, refs, k - 1), refs[k - 1];
      if Judge(lib, s, fetch, r).Revived? {
        PutKeepsOk(lib, s, r, fetch(r).value);
      }
    }
  }

  ghost predicate Distinct(refs: seq<Ref>) {
    && (forall i :: 0 <= i < |refs| ==> Proper(refs[i]))
    && (forall i, j :: 0 <= i < j < |refs| ==> refs[i] != refs[j])
  }

  lemma {:induction false} PassSpares(lib: Lib, files: Files, fetch: Fetch, refs: seq<Ref>, k: nat, r: Ref)
    requires k <= |refs| && Distinct(refs) && Proper(r) && (forall i :: 0 <= i < k ==> refs[i] != r)
    ensures SameShard(files, Pass(lib, files, fetch, refs, k), r)
  {
    hide Handle, Proper, ShardPath, HashPath;
    if k > 0 {
      PassSpares(lib, files, fetch, refs, k - 1, r);
      var s := Pass(lib, files, fetch, refs, k - 1);
      HandleSpares(lib, s, fetch, refs[k - 1], r);
      SameShardTrans(files, s, Handle(lib, s, fetch, refs[k - 1]), r);
    }
  }

  ghost predicate AllPresent(files: Files, refs: seq<Ref>)
    requires Distinct(refs)
  {
    forall i :: 0 <= i < |refs| ==> ShardPath(refs[i]).value in files
  }

  lemma {:induction false} PassDecides(lib: Lib, files: Files, fetch: Fetch, refs: seq<Ref>, k: nat, i: nat)
    requires i < k <= |refs| && Distinct(refs) && StoreOk(files) && AllPresent(files, refs)
    ensures Proper(refs[i]) && ShardPath(refs[i]).value in files
    ensures Judge(lib, Pass(lib, files, fetch, refs, i), fetch, refs[i]) == Expected(lib, files, fetch, refs[i])
    ensures Fate(lib, files, Pass(lib, files, fetch, refs, k), fetch, refs[i])
  {
    hide Handle, Proper, Fate, SameShard, Judge, StoreOk, Expected;
    PassKeepsOk(lib, files, fetch, refs, k - 1);
    var s := Pass(lib, files, fetch, refs, k - 1);
    if i == k - 1 {
      PassSpares(lib, files, fetch, refs, i, refs[i]);
      HandleDecides(lib, files, s, fetch, refs[i]);
    } else {
      PassDecides(lib, files, fetch, refs, k - 1, i);
      FateStays(lib, files, s, fetch, refs[i], refs[k - 1]);
    }
  }

  /** How many of the first k references should be judged so at the start. */
  ghost function Tallied(lib: Lib, files: Files, fetch: Fetch, refs: seq<Ref>, k: nat, o: Outcome): nat
    requires k <= |refs| && Distinct(refs) && AllPresent(files, refs)
  {
    if k == 0 then 0
    else Tallied(lib, files, fetch, refs, k - 1, o) + if Expected(lib, files, fetch, refs[k - 1]) == o then 1 else 0
  }

  lemma {:induction false} CountsAreExact(lib: Lib, files: Files, fetch: Fetch, refs: seq<Ref>, k: nat)
    requires k <= |refs| && Distinct(refs) && StoreOk(files) && AllPresent(files, refs)
    ensures var r := Counted(lib, files, fetch, refs, k);
      && r.ok == Tallied(lib, files, fetch, refs, k, Healthy)
      && r.revived == Tallied(lib, files, fetch, refs, k, Revived)
      && r.failed == Tallied(lib, files, fetch, refs, k, Failed)
  {
    hide Counted, Handle, Fate, Judge, StoreOk, Expected, Distinct, AllPresent;
    if k == 0 {
      CountStart(lib, files, fetch, refs);
    } else {
      CountsAreExact(lib, files, fetch, refs, k - 1);
      CountStep(lib, files, fetch, refs, k);
      TallyStep(lib, files, fetch, refs, k, Healthy);
      TallyStep(lib, files, fetch, refs, k, Revived);
      TallyStep(lib, files, fetch, refs, k, Failed);
    }
  }

  lemma CountStart(lib: Lib, files: Files, fetch: Fetch, refs: seq<Ref>)
    ensures Counted(lib, files, fetch, refs, 0) == Report(|refs|, 0, 0, 0, 0)
  {
  }

  lemma CountStep(lib: Lib, files: Files, fetch: Fetch, refs: seq<Ref>, k: nat)
    requires 0 < k <= |refs| && Distinct(refs) && StoreOk(files) && AllPresent(files, refs)
    ensures Proper(refs[k - 1]) && ShardPath(refs[k - 1]).value in files
    ensures Counted(lib, files, fetch, refs, k) == Tally(Counted(lib, files, fetch, refs, k - 1), Expected(lib, files, fetch, refs[k - 1]))
  {
    hide Pass, Handle, Fate, Judge, StoreOk, Expected, Distinct, AllPresent, Tally, ShardPath, Proper;
    PassDecides(lib, files, fetch, refs, k, k - 1);
  }

  lemma TallyStep(lib: Lib, files: Files, fetch: Fetch, refs: seq<Ref>, k: nat, o: Outcome)
    requires 0 < k <= |refs| && Distinct(refs) && AllPresent(files, refs)
    ensures Proper(refs[k - 1]) && ShardPath(refs[k - 1]).value in files
    ensures Tallied(lib, files, fetch, refs, k, o)
         == Tallied(lib, files, fetch, refs, k - 1, o) + if Expected(lib, files, fetch, refs[k - 1]) == o then 1 else 0
  {
    hide Expected;
  }

  lemma ListedAreDistinct(walk: seq<string>, files: Files)
    requires StoreOk(files) && Walks(walk, files)
    ensures Distinct(Listed(walk)) && AllPresent(files, Listed(walk))
  {
    hide OwnNames, Walks, Listed, ShardPath;
    ListAllIsExact(walk, files);
    var refs := Listed(walk);
    forall i | 0 <= i < |refs| ensures Proper(refs[i]) && ShardPath(refs[i]).value in files {
      assert refs[i] in refs;
      var p: string :| p in files && IsShard(p, refs[i]);
    }
  }

  /** What a whole pass must have done, said by digests and by which owners answer: the report
      counts the shards that were sound, corrupt and answered, and corrupt and unanswered;
      sound and unanswered shards keep their files, answered ones hold the answer with its
      digest, and no other reference is touched. */
  ghost predicate Exact(lib: Lib, files: Files, fetch: Fetch, refs: seq<Ref>, end: Files, report: Report) {
    && Distinct(refs) && AllPresent(files, refs)
    && (forall i :: 0 <= i < |refs| ==> Fate(lib, files, end, fetch, refs[i]))
    && (forall r: Ref :: Proper(r) && r !in refs ==> SameShard(files, end, r))
    && report.checked == |refs|
    && report.ok == Tallied(lib, files, fetch, refs, |refs|, Healthy)
    && report.corrupted == report.revived + report.failed
    && report.revived == Tallied(lib, files, fetch, refs, |refs|, Revived)
    && report.failed == Tallied(lib, files, fetch, refs, |refs|, Failed)
  }

  lemma PassIsExact(lib: Lib, files: Files, fetch: Fetch, walk: seq<string>)
    requires StoreOk(files) && Walks(walk, files)
    ensures var refs := Listed(walk);
      Exact(lib, files, fetch, refs, Pass(lib, files, fetch, refs, |refs|), Counted(lib, files, fetch, refs, |refs|))
  {
    hide *;
    ListedAreDistinct(walk, files);
    var refs := Listed(walk);
    CountsAreExact(lib, files, fetch, refs, |refs|);
    var end := Pass(lib, files, fetch, refs, |refs|);
    PassFates(lib, files, fetch, refs);
    forall r: Ref | Proper(r) && r !in refs ensures SameShard(files, end, r) {
      PassSpares(lib, files, fetch, refs, |refs|, r);
    }
    IsExact(lib, files, fetch, refs, end, Counted(lib, files, fetch, refs, |refs|));
  }

  ghost predicate Fates(lib: Lib, files: Files, end: Files, fetch: Fetch, refs: seq<Ref>)
    requires Distinct(refs) && AllPresent(files, refs)
  {
    forall i :: 0 <= i < |refs| ==> Fate(lib, files, end, fetch, refs[i])
  }

  lemma PassFates(lib: Lib, files: Files, fetch: Fetch, refs: seq<Ref>)
    requires Distinct(refs) && AllPresent(files, refs) && StoreOk(files)
    ensures Fates(lib, files, Pass(lib, files, fetch, refs, |refs|), fetch, refs)
  {
    hide Pass, Fate, StoreOk;
    forall i | 0 <= i < |refs| ensures Fate(lib, files, Pass(lib, files, fetch, refs, |refs|), fetch, refs[i]) {
      PassDecides(lib, files, fetch, refs, |refs|, i);
    }
  }

  lemma IsExact(lib: Lib, files: Files, fetch: Fetch, refs: seq<Ref>, end: Files, report: Report)
    requires Distinct(refs) && AllPresent(files, refs) && Fates(lib, files, end, fetch, refs)
    requires forall r: Ref :: Proper(r) && r !in refs ==> SameShard(files, end, r)
    requires report.checked == |refs| && report.corrupted == report.revived + report.failed
    requires report.ok == Tallied(lib, files, fetch, refs, |refs|, Healthy)
    requires report.revived == Tallied(lib, files, fetch, refs, |refs|, Revived)
    requires report.failed == Tallied(lib, files, fetch, refs, |refs|, Failed)
    ensures Exact(lib, files, fetch, refs, end, report)
  {
    hide Fate, SameShard, Tallied;
  }

  /** So it is on every store handlers and revives can leave, whatever was damaged since. */
  lemma EveryPassIsExact(lib: Lib, ops: seq<Op>, fetch: Fetch, walk: seq<string>)
    requires (forall i :: 0 <= i < |ops| ==> OpOk(ops[i])) && Walks(walk, AfterAll(lib, ops))
    ensures var files, refs := AfterAll(lib, ops), Listed(walk);
      Exact(lib, files, fetch, refs, Pass(lib, files, fetch, refs, |refs|), Counted(lib, files, fetch, refs, |refs|))
  {
    hide *;
    EveryStoreIsOk(lib, ops);
    PassIsExact(lib, AfterAll(lib, ops), fetch, walk);
  }
}
