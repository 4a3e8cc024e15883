/** internal/buddy/store.go: the names of shard files, and the walk that reads them back.
    Paths are relative to <root>/remote and use '/'. */
module Paths {
  import opened Base
  import opened Text

  const MANIFEST := "manifest.enc"

  datatype Ref = Ref(owner: string, fileId: string, index: int)

  predicate Safe(s: string) {
    s != "" && s != "." && s != ".." && '/' !in s && '\\' !in s
  }

  /** Indices are Go ints. */
  predicate Proper(r: Ref) {
    Safe(r.owner) && Safe(r.fileId) && -INT64 <= r.index < INT64
  }

  function FileName(index: int): string { Decimal(index) + ".shard" }

  function ShardPath(r: Ref): (p: Option<string>)
    ensures p.Some? <==> Safe(r.owner) && Safe(r.fileId)
  {
    if !Safe(r.owner) || !Safe(r.fileId) then None
    else Some((r.owner + "/" + r.fileId) + "/" + FileName(r.index))
  }

  function HashPath(r: Ref): Option<string> {
    var p := ShardPath(r);
    if p.None? then None else Some(p.value + ".hash")
  }

  function ManifestPath(owner: string): (p: Option<string>)
    ensures p.Some? <==> Safe(owner)
  {
    if Safe(owner) then Some(owner + "/" + MANIFEST) else None
  }

  // ---- Reading a path back -------------------------------------------------

  predicate HasSuffix(s: string, suffix: string) {
    |suffix| <= |s| && s[|s| - |suffix|..] == suffix
  }

  /** Position of the last '/', or -1. */
  function LastSlash(p: string): (i: int)
    ensures -1 <= i < |p| && (i >= 0 ==> p[i] == '/')
    ensures forall j :: i < j < |p| ==> p[j] != '/'
  {
    if p == "" then -1 else if p[|p| - 1] == '/' then |p| - 1 else LastSlash(p[..|p| - 1])
  }

  /** The components of a clean relative path. */
  function Segments(p: string): seq<string>
    decreases |p|
  {
    if p == "" then []
    else
      var i := LastSlash(p);
      if i < 0 then [p] else Segments(p[..i]) + (if i + 1 < |p| then [p[i + 1..]] else [])
  }

  /** splitPath; cleaning the directory part of a clean path only drops its final slash. */
  method SplitPath(path: string) returns (parts: seq<string>)
    ensures parts == Segments(path)
  {
    var p := path;
    parts := [];
    while p != ""
      invariant Segments(path) == Segments(p) + parts
      decreases |p|
    {
      var i := LastSlash(p);
      var file := p[i + 1..];
      ghost var before := parts;
      if file != "" {
        parts := [file] + parts;
      }
      if i < 0 {
        assert Segments(p) == [p] && file == p;
        return;
      }
      assert Segments(p[..i]) + parts == Segments(p) + before;
      p := p[..i];
    }
  }

  function ParseDigits(s: string): Option<nat> {
    if s == "" then Some(0)
    else
      var front, c := ParseDigits(s[..|s| - 1]), s[|s| - 1];
      if front.None? || !('0' <= c <= '9') then None
      else Some(10 * front.value + (c as int - '0' as int))
  }

  /** strconv.Atoi: an optional sign, at least one digit, and a value that fits. */
  function Atoi(s: string): Option<int> {
    var signed := s != "" && (s[0] == '-' || s[0] == '+');
    var digits := if signed then s[1..] else s;
    var n := ParseDigits(digits);
    if digits == "" || n.None? then None
    else
      var m: int := n.value;
      var v := if signed && s[0] == '-' then -m else m;
      if -INT64 <= v < INT64 then Some(v) else None
  }

  /** What ListAll makes of one file. */
  function ParsePath(p: string): Option<Ref> {
    var segs := Segments(p);
    if !HasSuffix(p, ".shard") || |segs| != 3 || |segs[2]| < 6 then None
    else
      var n := Atoi(segs[2][..|segs[2]| - 6]);
      if n.None? then None else Some(Ref(segs[0], segs[1], n.value))
  }

  // ---- The round trip ------------------------------------------------------

  lemma DigitValue(n: int)
    requires 0 <= n < 10
    ensures '0' <= Digit(n) <= '9' && Digit(n) as int - '0' as int == n
  {
  }

  lemma ParseSnoc(s: string, c: char)
    ensures ParseDigits(s + [c]) == var front := ParseDigits(s);
      if front.None? || !('0' <= c <= '9') then None else Some(10 * front.value + (c as int - '0' as int))
  {
    assert (s + [c])[..|s|] == s;
  }

  lemma {:induction false} ParseDecimalNat(n: nat)
    ensures ParseDigits(DecimalNat(n)) == Some(n)
  {
    hide ParseDigits, Digit;
    NoDigits();
    if n < 10 {
      DigitValue(n);
      ParseSnoc("", Digit(n));
      assert DecimalNat(n) == "" + [Digit(n)];
    } else {
      ParseDecimalNat(n / 10);
      DigitValue(n % 10);
      ParseSnoc(DecimalNat(n / 10), Digit(n % 10));
    }
  }

  lemma NoDigits()
    ensures ParseDigits("") == Some(0)
  {
  }

  lemma AtoiDecimal(n: int)
    requires -INT64 <= n < INT64
    ensures Atoi(Decimal(n)) == Some(n)
  {
    hide ParseDigits, DecimalNat;
    if n < 0 {
      ParseDecimalNat(-n);
      assert Decimal(n)[1..] == DecimalNat(-n);
    } else {
      ParseDecimalNat(n);
    }
  }

  lemma NoSlashInName(index: int)
    ensures '/' !in FileName(index) && FileName(index) != ""
  {
    hide DecimalNat;
    var d := Decimal(index);
    assert forall i :: 0 <= i < |d| ==> d[i] != '/';
  }

  lemma {:induction false} LastSlashIs(a: string, b: string)
    requires '/' !in b
    ensures LastSlash(a + "/" + b) == |a|
  {
    var p := a + "/" + b;
    if b != "" {
      var n := |b| - 1;
      LastSlashIs(a, b[..n]);
      assert p[..|p| - 1] == a + "/" + b[..n];
      assert p[|p| - 1] == b[n];
    }
  }

  lemma SegmentsSnoc(a: string, b: string)
    requires '/' !in b && b != ""
    ensures Segments(a + "/" + b) == Segments(a) + [b]
  {
    var p := a + "/" + b;
    LastSlashIs(a, b);
    assert p[..|a|] == a && p[|a| + 1..] == b;
  }

  lemma SegmentsOne(a: string)
    requires '/' !in a && a != ""
    ensures Segments(a) == [a]
  {
  }

  lemma ShardSegments(r: Ref)
    requires Proper(r)
    ensures Segments(ShardPath(r).value) == [r.owner, r.fileId, FileName(r.index)]
  {
    hide Segments, FileName;
    NoSlashInName(r.index);
    SegmentsOne(r.owner);
    SegmentsSnoc(r.owner, r.fileId);
    SegmentsSnoc(r.owner + "/" + r.fileId, FileName(r.index));
  }

  /** ListAll reads every shard path back as the reference it was made from. */
  lemma ParseShardPath(r: Ref)
    requires Proper(r)
    ensures ParsePath(ShardPath(r).value) == Some(r)
  {
    hide Segments, Decimal, Atoi;
    ShardSegments(r);
    AtoiDecimal(r.index);
    var p, name := ShardPath(r).value, FileName(r.index);
    assert name[..|name| - 6] == Decimal(r.index);
    assert p[|p| - 6..] == ".shard";
  }

  /** So no two references share a path. */
  lemma ShardPathInjective(a: Ref, b: Ref)
    requires Proper(a) && Proper(b) && ShardPath(a) == ShardPath(b)
    ensures a == b
  {
    hide *;
    ParseShardPath(a);
    ParseShardPath(b);
  }

  lemma LastOfSuffix(p: string, suffix: string)
    ensures suffix != "" && HasSuffix(p, suffix) ==> p[|p| - 1] == suffix[|suffix| - 1]
  {
    if suffix != "" && HasSuffix(p, suffix) {
      assert p[|p| - |suffix|..][|suffix| - 1] == p[|p| - 1];
    }
  }

  lemma AppendHasSuffix(p: string, suffix: string)
    ensures HasSuffix(p + suffix, suffix)
  {
  }

  lemma AppendCancel(p: string, q: string, suffix: string)
    ensures p + suffix == q + suffix ==> p == q
  {
    if p + suffix == q + suffix {
      assert |p| == |q|;
      assert p == (p + suffix)[..|p|] && q == (q + suffix)[..|q|];
    }
  }

  /** Sidecars and manifests are never listed. */
  lemma OthersAreNotListed(r: Ref, owner: string)
    ensures HashPath(r).Some? ==> !HasSuffix(HashPath(r).value, ".shard") && ParsePath(HashPath(r).value).None?
    ensures ManifestPath(owner).Some? ==>
      !HasSuffix(ManifestPath(owner).value, ".shard") && ParsePath(ManifestPath(owner).value).None?
  {
    hide Segments, HasSuffix, ShardPath;
    if HashPath(r).Some? {
      AppendHasSuffix(ShardPath(r).value, ".hash");
      LastOfSuffix(HashPath(r).value, ".hash");
      LastOfSuffix(HashPath(r).value, ".shard");
    }
    if ManifestPath(owner).Some? {
      AppendHasSuffix(owner + "/", MANIFEST);
      LastOfSuffix(owner + "/" + MANIFEST, MANIFEST);
      LastOfSuffix(owner + "/" + MANIFEST, ".shard");
    }
  }

  lemma ShardHasSuffix(r: Ref)
    requires ShardPath(r).Some?
    ensures HasSuffix(ShardPath(r).value, ".shard")
  {
  }

  /** A manifest is neither a shard nor a sidecar, and each owner has its own. */
  lemma ManifestPathsAreDistinct(r: Ref, owner: string, other: string)
    requires Proper(r) && Safe(owner) && Safe(other)
    ensures ManifestPath(owner) != ShardPath(r) && ManifestPath(owner) != HashPath(r)
    ensures owner != other ==> ManifestPath(owner) != ManifestPath(other)
  {
    hide ParsePath, Segments, HasSuffix, FileName, ShardPath;
    OthersAreNotListed(r, owner);
    ShardHasSuffix(r);
    AppendHasSuffix(owner + "/", MANIFEST);
    LastOfSuffix(owner + "/" + MANIFEST, MANIFEST);
    AppendHasSuffix(ShardPath(r).value, ".hash");
    LastOfSuffix(ShardPath(r).value + ".hash", ".hash");
    AppendCancel(owner + "/", other + "/", MANIFEST);
    AppendCancel(owner, other, "/");
  }

  /** Paths of different kinds or of different references differ. */
  lemma PathsAreDistinct(a: Ref, b: Ref)
    requires Proper(a) && Proper(b)
    ensures ShardPath(a) != HashPath(b)
    ensures a != b ==> ShardPath(a) != ShardPath(b) && HashPath(a) != HashPath(b)
  {
    hide ParsePath, Segments, HasSuffix, FileName;
    OthersAreNotListed(b, "");
    ShardHasSuffix(a);
    AppendCancel(ShardPath(a).value, ShardPath(b).value, ".hash");
    if ShardPath(a) == ShardPath(b) {
      ShardPathInjective(a, b);
    }
  }

  // ---- Files in the way of directories -------------------------------------

  /** `q` names a directory that `p` lies in, at any depth. */
  predicate Ancestor(q: string, p: string) {
    |q| < |p| && p[..|q|] == q && p[|q|] == '/'
  }

  lemma {:induction false} LastSlashAfter(a: string, b: string)
    requires '/' in b
    ensures LastSlash(b) >= 0 && LastSlash(a + "/" + b) == |a| + 1 + LastSlash(b)
  {
    var p, n := a + "/" + b, |b| - 1;
    assert p[|p| - 1] == b[n] && p[..|p| - 1] == a + "/" + b[..n] && b == b[..n] + [b[n]];
    if b[n] != '/' {
      LastSlashAfter(a, b[..n]);
    }
  }

  lemma SegmentsUnfold(p: string, i: nat)
    requires p != "" && LastSlash(p) == i
    ensures Segments(p) == Segments(p[..i]) + if i + 1 < |p| then [p[i + 1..]] else []
  {
    hide LastSlash;
  }

  /** The components of a joined path are those of its two parts. */
  lemma {:induction false} SegmentsJoin(q: string, t: string)
    ensures Segments(q + "/" + t) == Segments(q) + Segments(t)
    decreases |t|
  {
    hide Segments, LastSlash;
    var p := q + "/" + t;
    if '/' !in t {
      LastSlashIs(q, t);
      SegmentsUnfold(p, |q|);
      assert p[..|q|] == q && p[|q| + 1..] == t;
      NoSlashSegments(t);
    } else {
      LastSlashAfter(q, t);
      var j := LastSlash(t);
      SegmentsJoin(q, t[..j]);
      SegmentsUnfold(p, |q| + 1 + j);
      SegmentsUnfold(t, j);
      assert p[..|q| + 1 + j] == q + "/" + t[..j] && p[|q| + 1 + j + 1..] == t[j + 1..];
    }
  }

  lemma NoSlashSegments(t: string)
    requires '/' !in t
    ensures Segments(t) == if t == "" then [] else [t]
  {
  }

  /** Only a path that ends in a slash has nothing after its last directory. */
  lemma LastSegment(t: string)
    requires t != "" && t[|t| - 1] != '/'
    ensures Segments(t) != []
  {
  }

  lemma AncestorIsShorter(q: string, p: string)
    requires Ancestor(q, p) && p[|p| - 1] != '/'
    ensures |Segments(q)| < |Segments(p)| && Segments(p)[..|Segments(q)|] == Segments(q)
  {
    hide Segments;
    var t := p[|q| + 1..];
    assert p == q + "/" + t;
    SegmentsJoin(q, t);
    assert t[|t| - 1] == p[|p| - 1];
    LastSegment(t);
  }

  lemma HashSegments(r: Ref)
    requires Proper(r)
    ensures Segments(HashPath(r).value) == [r.owner, r.fileId, FileName(r.index) + ".hash"]
  {
    hide Segments, FileName;
    NoSlashInName(r.index);
    SegmentsOne(r.owner);
    SegmentsSnoc(r.owner, r.fileId);
    var name := FileName(r.index) + ".hash";
    assert HashPath(r).value == (r.owner + "/" + r.fileId) + "/" + name;
    SegmentsSnoc(r.owner + "/" + r.fileId, name);
  }

  lemma ManifestSegments(owner: string)
    requires Safe(owner)
    ensures Segments(ManifestPath(owner).value) == [owner, MANIFEST]
  {
    hide Segments;
    SegmentsOne(owner);
    SegmentsSnoc(owner, MANIFEST);
  }

  lemma NoFinalSlash(r: Ref, owner: string)
    ensures ShardPath(r).Some? ==> |ShardPath(r).value| > 0 && ShardPath(r).value[|ShardPath(r).value| - 1] == 'd'
    ensures HashPath(r).Some? ==> |HashPath(r).value| > 0 && HashPath(r).value[|HashPath(r).value| - 1] == 'h'
    ensures Safe(owner) ==> |ManifestPath(owner).value| > 0 && ManifestPath(owner).value[|ManifestPath(owner).value| - 1] == 'c'
  {
    hide HasSuffix;
    if ShardPath(r).Some? {
      ShardHasSuffix(r);
      LastOfSuffix(ShardPath(r).value, ".shard");
      AppendHasSuffix(ShardPath(r).value, ".hash");
      LastOfSuffix(HashPath(r).value, ".hash");
    }
    AppendHasSuffix(owner + "/", MANIFEST);
    LastOfSuffix(owner + "/" + MANIFEST, MANIFEST);
  }

  /** A shard directory named like the manifest lies where the manifest file would. */
  lemma ManifestIsAncestor(r: Ref)
    requires Proper(r) && r.fileId == MANIFEST
    ensures Ancestor(ManifestPath(r.owner).value, ShardPath(r).value)
    ensures Ancestor(ManifestPath(r.owner).value, HashPath(r).value)
  {
    hide FileName;
    var q, name := r.owner + "/" + MANIFEST, FileName(r.index);
    assert ShardPath(r).value == q + "/" + name;
    assert HashPath(r).value == q + ("/" + name + ".hash");
  }

  // ---- Safe names cannot leave the store -----------------------------------

  /** Following path components from the store's root: "." stays, ".." goes up. */
  function Follow(segs: seq<string>): seq<string> {
    if segs == [] then []
    else
      var at, last := Follow(segs[..|segs| - 1]), segs[|segs| - 1];
      if last == "" || last == "." then at
      else if last == ".." then (if at == [] then [] else at[..|at| - 1])
      else at + [last]
  }

  /** A name is safe if and only if it holds no separator of any system and names a child of
      whatever directory it is used in. */
  lemma SafeIff(s: string)
    ensures Safe(s) <==> '/' !in s && '\\' !in s && Follow([s]) == [s]
  {
    assert [s][..0] == [];
    assert Follow([]) == [];
  }

  lemma FollowSnoc(segs: seq<string>, s: string)
    requires s != "" && s != "." && s != ".."
    ensures Follow(segs + [s]) == Follow(segs) + [s]
  {
    assert (segs + [s])[..|segs|] == segs;
  }

  /** Every shard, sidecar and manifest lies exactly where its names say, below the owner's own directory. */
  lemma PathsStayBelowOwner(r: Ref, owner: string)
    ensures Proper(r) ==>
      && Follow(Segments(ShardPath(r).value)) == [r.owner, r.fileId, FileName(r.index)]
      && Follow(Segments(HashPath(r).value)) == [r.owner, r.fileId, FileName(r.index) + ".hash"]
    ensures ManifestPath(owner).Some? ==> Follow(Segments(ManifestPath(owner).value)) == [owner, "manifest.enc"]
  {
    hide Segments, FileName, Follow, ShardPath, HashPath, ManifestPath;
    FollowNothing();
    if Proper(r) {
      ShardSegments(r);
      HashSegments(r);
      LongName(r.index);
      FollowThree(r.owner, r.fileId, FileName(r.index));
      FollowThree(r.owner, r.fileId, FileName(r.index) + ".hash");
    }
    if ManifestPath(owner).Some? {
      ManifestSegments(owner);
      FollowSnoc([], owner);
      FollowSnoc([owner], "manifest.enc");
      assert [] + [owner] == [owner] && [owner] + ["manifest.enc"] == [owner, "manifest.enc"];
    }
  }

  lemma FollowNothing()
    ensures Follow([]) == []
  {
  }

  lemma LongName(index: int)
    ensures |FileName(index)| > 2
  {
  }

  lemma FollowThree(a: string, b: string, c: string)
    requires Safe(a) && Safe(b) && |c| > 2
    ensures Follow([a, b, c]) == [a, b, c]
  {
    hide Follow;
    FollowNothing();
    FollowSnoc([], a);
    FollowSnoc([a], b);
    FollowSnoc([a, b], c);
    assert [] + [a] == [a] && [a] + [b] == [a, b] && [a, b] + [c] == [a, b, c];
  }

  // ---- What the walk takes for an index ------------------------------------

  lemma {:induction false} DigitsOnly(s: string)
    ensures ParseDigits(s).Some? <==> forall i :: 0 <= i < |s| ==> '0' <= s[i] <= '9'
  {
    if s != "" {
      DigitsOnly(s[..|s| - 1]);
      assert s == s[..|s| - 1] + [s[|s| - 1]];
    }
  }

  /** Only an optional sign and digits are an index, and the index is a Go int. */
  lemma AtoiAccepts(s: string)
    requires Atoi(s).Some?
    ensures -INT64 <= Atoi(s).value < INT64
    ensures s != "" && ('0' <= s[0] <= '9' || (|s| > 1 && (s[0] == '-' || s[0] == '+')))
    ensures forall i :: 1 <= i < |s| ==> '0' <= s[i] <= '9'
  {
    var sign := if s[0] == '-' || s[0] == '+' then 1 else 0;
    DigitsOnly(s[sign..]);
    forall i | sign <= i < |s| ensures '0' <= s[i] <= '9' {
      assert s[i] == s[sign..][i - sign];
    }
  }
}
