/** internal/storage: one directory per file, one file per shard, and meta.json as their index. */
module Storage {
  import opened Base

  datatype ShardMeta = ShardMeta(fileId: string, shardIndex: int, isParity: bool, size: nat)

  datatype Dir = Dir(shards: map<int, bytes>, meta: seq<ShardMeta>)

  type Dirs = map<string, Dir>

  const EMPTY := Dir(map[], [])

  function DirOf(dirs: Dirs, fileId: string): Dir {
    if fileId in dirs then dirs[fileId] else EMPTY
  }

  function Get(dirs: Dirs, fileId: string, index: int): Option<bytes> {
    var d := DirOf(dirs, fileId);
    if index in d.shards then Some(d.shards[index]) else None
  }

  /** The index after a write: updated in place where present, appended where not. */
  function PutMeta(meta: seq<ShardMeta>, fileId: string, index: int, isParity: bool, size: nat): seq<ShardMeta> {
    if meta == [] then [ShardMeta(fileId, index, isParity, size)]
    else if meta[0].shardIndex == index then
      [meta[0].(size := size, isParity := isParity)] + meta[1..]
    else [meta[0]] + PutMeta(meta[1..], fileId, index, isParity, size)
  }

  function Put(dirs: Dirs, fileId: string, index: int, isParity: bool, data: bytes): Dirs {
    var d := DirOf(dirs, fileId);
    dirs[fileId := Dir(d.shards[index := data], PutMeta(d.meta, fileId, index, isParity, |data|))]
  }

  function Delete(dirs: Dirs, fileId: string): Dirs {
    dirs - {fileId}
  }

  /** A shard file lost (None) or overwritten behind the index's back. */
  function Torn(dirs: Dirs, fileId: string, index: int, blob: Option<bytes>): Dirs {
    var d := DirOf(dirs, fileId);
    match blob
    case Some(b) => dirs[fileId := Dir(d.shards[index := b], d.meta)]
    case None => if fileId in dirs then dirs[fileId := Dir(d.shards - {index}, d.meta)] else dirs
  }

  /** PutMeta looks past entries with other indices. */
  lemma {:induction false} PutMetaSkips(meta: seq<ShardMeta>, i: nat, fileId: string, index: int, isParity: bool, size: nat)
    requires i <= |meta| && forall j :: 0 <= j < i ==> meta[j].shardIndex != index
    ensures PutMeta(meta, fileId, index, isParity, size)
         == meta[..i] + PutMeta(meta[i..], fileId, index, isParity, size)
  {
    if i == 0 {
      assert meta[0..] == meta;
    } else {
      PutMetaSkips(meta[1..], i - 1, fileId, index, isParity, size);
      assert meta[1..][i - 1..] == meta[i..] && meta[..i] == [meta[0]] + meta[1..][..i - 1];
    }
  }

  /** The loop over meta.json in Put: update the first match, else append. */
  method RewriteMeta(before: seq<ShardMeta>, fileId: string, index: int, isParity: bool, size: nat)
    returns (meta: seq<ShardMeta>)
    ensures meta == PutMeta(before, fileId, index, isParity, size)
  {
    meta := before;
    for i := 0 to |meta|
      invariant meta == before
      invariant forall j :: 0 <= j < i ==> before[j].shardIndex != index
    {
      if meta[i].shardIndex == index {
        meta := meta[i := meta[i].(size := size, isParity := isParity)];
        PutMetaSkips(before, i, fileId, index, isParity, size);
        return;
      }
    }
    PutMetaSkips(before, |before|, fileId, index, isParity, size);
    meta := meta + [ShardMeta(fileId, index, isParity, size)];
  }

  class Store {
    var dirs: Dirs

    constructor ()
      ensures dirs == map[]
    {
      dirs := map[];
    }

    /** Writes the shard file, then rewrites meta.json. */
    method PutShard(fileId: string, index: int, isParity: bool, data: bytes)
      modifies this
      ensures dirs == Put(old(dirs), fileId, index, isParity, data)
    {
      var d := DirOf(dirs, fileId);
      var meta := RewriteMeta(d.meta, fileId, index, isParity, |data|);
      dirs := dirs[fileId := Dir(d.shards[index := data], meta)];
    }

    /** os.WriteFile truncates first: a write that fails leaves `debris` and an old index. */
    method FailShard(fileId: string, index: int, debris: bytes)
      modifies this
      ensures dirs == Torn(old(dirs), fileId, index, Some(debris))
    {
      var d := DirOf(dirs, fileId);
      dirs := dirs[fileId := Dir(d.shards[index := debris], d.meta)];
    }

    method DeleteFile(fileId: string)
      modifies this
      ensures dirs == Delete(old(dirs), fileId)
    {
      dirs := dirs - {fileId};
    }
  }

  // ---- meta.json is an exact index, whatever was written and deleted ------

  datatype Shard = Shard(isParity: bool, data: bytes)

  datatype Op = PutOp(fileId: string, index: int, isParity: bool, data: bytes) | DeleteOp(fileId: string)

  /** The store as a table of shards, with no index at all. */
  type Table = map<string, map<int, Shard>>

  function Row(t: Table, fileId: string): map<int, Shard> {
    if fileId in t then t[fileId] else map[]
  }

  function ApplyTable(t: Table, op: Op): Table {
    match op
    case PutOp(f, i, p, d) => t[f := Row(t, f)[i := Shard(p, d)]]
    case DeleteOp(f) => t - {f}
  }

  function ApplyDirs(dirs: Dirs, op: Op): Dirs {
    match op
    case PutOp(f, i, p, d) => Put(dirs, f, i, p, d)
    case DeleteOp(f) => Delete(dirs, f)
  }

  function RunTable(t: Table, ops: seq<Op>): Table
    decreases |ops|
  {
    if ops == [] then t else RunTable(ApplyTable(t, ops[0]), ops[1..])
  }

  function RunDirs(dirs: Dirs, ops: seq<Op>): Dirs
    decreases |ops|
  {
    if ops == [] then dirs else RunDirs(ApplyDirs(dirs, ops[0]), ops[1..])
  }

  /** The index as a table; the predicate beside it says no index occurs twice. */
  ghost function MetaTable(meta: seq<ShardMeta>): map<int, ShardMeta> {
    if meta == [] then map[] else MetaTable(meta[1..])[meta[0].shardIndex := meta[0]]
  }

  ghost predicate NoDuplicates(meta: seq<ShardMeta>, fileId: string) {
    meta == [] || (meta[0].fileId == fileId && meta[0].shardIndex !in MetaTable(meta[1..]) && NoDuplicates(meta[1..], fileId))
  }

  ghost function RowMeta(fileId: string, row: map<int, Shard>): map<int, ShardMeta> {
    map i | i in row :: ShardMeta(fileId, i, row[i].isParity, |row[i].data|)
  }

  /** The shard files are the row's data, and meta.json lists each once with its
      parity flag and size, and nothing else. */
  ghost predicate DirExact(dir: Dir, fileId: string, row: map<int, Shard>) {
    && dir.shards == RowData(row)
    && NoDuplicates(dir.meta, fileId)
    && MetaTable(dir.meta) == RowMeta(fileId, row)
  }

  ghost predicate Exact(dirs: Dirs, t: Table) {
    dirs.Keys == t.Keys && forall f :: f in t ==> DirExact(dirs[f], f, t[f])
  }

  lemma MetaTableCons(m: ShardMeta, rest: seq<ShardMeta>, fileId: string)
    ensures MetaTable([m] + rest) == MetaTable(rest)[m.shardIndex := m]
    ensures NoDuplicates([m] + rest, fileId) <==>
      m.fileId == fileId && m.shardIndex !in MetaTable(rest) && NoDuplicates(rest, fileId)
  {
    assert ([m] + rest)[1..] == rest;
  }

  lemma NoMeta(fileId: string)
    ensures MetaTable([]) == map[] && NoDuplicates([], fileId)
  {
  }

  lemma {:induction false} PutMetaIsUpdate(meta: seq<ShardMeta>, fileId: string, index: int, isParity: bool, size: nat)
    requires NoDuplicates(meta, fileId)
    ensures var r := PutMeta(meta, fileId, index, isParity, size);
      NoDuplicates(r, fileId) && MetaTable(r) == MetaTable(meta)[index := ShardMeta(fileId, index, isParity, size)]
  {
    hide MetaTable, NoDuplicates;
    var added := ShardMeta(fileId, index, isParity, size);
    NoMeta(fileId);
    if meta == [] {
      MetaTableCons(added, [], fileId);
      assert [added] + [] == [added];
    } else {
      var first, rest := meta[0], meta[1..];
      assert meta == [first] + rest;
      MetaTableCons(first, rest, fileId);
      if first.shardIndex == index {
        MetaTableCons(added, rest, fileId);
      } else {
        PutMetaIsUpdate(rest, fileId, index, isParity, size);
        MetaTableCons(first, PutMeta(rest, fileId, index, isParity, size), fileId);
      }
    }
  }

  ghost function RowData(row: map<int, Shard>): map<int, bytes> {
    map i | i in row :: row[i].data
  }

  lemma RowUpdate(fileId: string, row: map<int, Shard>, index: int, s: Shard)
    ensures RowData(row[index := s]) == RowData(row)[index := s.data]
    ensures RowMeta(fileId, row[index := s]) == RowMeta(fileId, row)[index := ShardMeta(fileId, index, s.isParity, |s.data|)]
  {
  }

  lemma PutKeepsDirExact(dir: Dir, fileId: string, row: map<int, Shard>, index: int, isParity: bool, data: bytes)
    requires DirExact(dir, fileId, row)
    ensures DirExact(Dir(dir.shards[index := data], PutMeta(dir.meta, fileId, index, isParity, |data|)),
                     fileId, row[index := Shard(isParity, data)])
  {
    PutMetaIsUpdate(dir.meta, fileId, index, isParity, |data|);
    RowUpdate(fileId, row, index, Shard(isParity, data));
  }

  lemma PutKeepsExact(dirs: Dirs, t: Table, f: string, i: int, p: bool, d: bytes)
    requires Exact(dirs, t)
    ensures Exact(Put(dirs, f, i, p, d), t[f := Row(t, f)[i := Shard(p, d)]])
  {
    hide DirExact, PutMeta;
    DirIsExact(dirs, t, f);
    PutKeepsDirExact(DirOf(dirs, f), f, Row(t, f), i, p, d);
  }

  lemma DirIsExact(dirs: Dirs, t: Table, f: string)
    requires Exact(dirs, t)
    ensures DirExact(DirOf(dirs, f), f, Row(t, f))
  {
    NoMeta(f);
  }

  lemma StepKeepsExact(dirs: Dirs, t: Table, op: Op)
    requires Exact(dirs, t)
    ensures Exact(ApplyDirs(dirs, op), ApplyTable(t, op))
  {
    hide DirExact, Put;
    match op
    case PutOp(f, i, p, d) =>
      PutKeepsExact(dirs, t, f, i, p, d);
    case DeleteOp(f) =>
  }

  /** After any run of writes and deletions meta.json lists exactly the stored shards. */
  lemma {:induction false} MetaIsExactIndex(dirs: Dirs, t: Table, ops: seq<Op>)
    requires Exact(dirs, t)
    ensures Exact(RunDirs(dirs, ops), RunTable(t, ops))
    decreases |ops|
  {
    if ops != [] {
      StepKeepsExact(dirs, t, ops[0]);
      MetaIsExactIndex(ApplyDirs(dirs, ops[0]), ApplyTable(t, ops[0]), ops[1..]);
    }
  }
}
