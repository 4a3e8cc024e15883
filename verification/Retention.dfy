/** internal/manifest: which versions of one path a retention policy keeps. */
module Retention {
  import opened Base
  import opened Protocol
  import opened Versions
  import opened Text

  datatype Policy = Policy(keepAllDays: int, keepWeeklyDays: int, maxVersions: int)

  /** time.ISOWeek and time.Year/time.Month. */
  datatype Calendar = Calendar(isoWeek: Time -> (int, int), month: Time -> (int, int))

  ghost predicate CalendarOk(cal: Calendar) {
    forall t :: 1 <= cal.isoWeek(t).1 <= 53 && 1 <= cal.month(t).1 <= 12
  }

  const MAX_DURATION := 0x7fff_ffff_ffff_ffff

  /** time.Time.Sub saturates. */
  function Age(now: Time, then_: Time): int {
    var d := now - then_;
    if d > MAX_DURATION then MAX_DURATION else if d < -MAX_DURATION - 1 then -MAX_DURATION - 1 else d
  }

  /** A number of days as a 64-bit count of nanoseconds, which wraps. */
  function Window(days: int): int {
    (days * 86_400_000_000_000 + MAX_DURATION + 1) % 0x1_0000_0000_0000_0000 - MAX_DURATION - 1
  }

  function BackedAt(e: ManifestEntry): Time {
    if e.backedAt == ZERO_TIME then e.modified else e.backedAt
  }

  /** The tier of a version, with the week or month it stands for. */
  datatype Bucket = KeepAll | Week(year: int, week: int) | Month(year: int, month: int)

  function BucketOf(e: ManifestEntry, p: Policy, now: Time, cal: Calendar): Bucket {
    var at := BackedAt(e);
    var age := Age(now, at);
    if age <= Window(p.keepAllDays) then KeepAll
    else if age <= Window(p.keepWeeklyDays) then Week(cal.isoWeek(at).0, cal.isoWeek(at).1)
    else Month(cal.month(at).0, cal.month(at).1)
  }

  /** The tier of every entry under one policy at one instant. */
  type Tiering = ManifestEntry -> Bucket

  function TierOf(p: Policy, now: Time, cal: Calendar): Tiering {
    (e: ManifestEntry) => BucketOf(e, p, now, cal)
  }

  ghost predicate TieringOk(tier: Tiering) {
    forall e :: InRange(tier(e))
  }

  lemma TierOfOk(p: Policy, now: Time, cal: Calendar)
    requires CalendarOk(cal)
    ensures TieringOk(TierOf(p, now, cal))
  {
    forall e ensures InRange(TierOf(p, now, cal)(e)) {
      assert TierOf(p, now, cal)(e) == BucketOf(e, p, now, cal);
    }
  }

  // ---- The keys of the shared `seen` map -----------------------------------

  predicate InRange(b: Bucket) {
    (b.Week? ==> 1 <= b.week <= 53) && (b.Month? ==> 1 <= b.month <= 12)
  }

  function Key(b: Bucket): string
    requires InRange(b) && !b.KeepAll?
  {
    match b
    case Week(y, w) => Decimal(y) + "-W" + TwoDigits(w)
    case Month(y, m) => Decimal(y) + "-" + TwoDigits(m)
  }

  function Number(b: Bucket): int
    requires InRange(b) && !b.KeepAll?
  {
    match b
    case Week(_, w) => w
    case Month(_, m) => m
  }

  /** A key ends in two digits behind a 'W' or a '-', and begins with the year. */
  lemma KeyShape(b: Bucket)
    requires InRange(b) && !b.KeepAll?
    ensures var k, cut := Key(b), if b.Week? then 4 else 3;
      && |k| > cut && k[..|k| - cut] == Decimal(b.year)
      && k[|k| - 2..] == TwoDigits(Number(b))
      && k[|k| - 3] == if b.Week? then 'W' else '-'
  {
    if b.Week? {
      assert Key(b) == Decimal(b.year) + (['-', 'W'] + TwoDigits(b.week));
    } else {
      assert Key(b) == Decimal(b.year) + (['-'] + TwoDigits(b.month));
    }
  }

  /** Week keys and month keys are never FileIDs. */
  lemma KeyIsNoUuid(b: Bucket)
    requires InRange(b) && !b.KeepAll?
    ensures !IsUuid(Key(b))
  {
    KeyShape(b);
    if |Key(b)| == 36 {
      assert Key(b)[33] == 'W' || Key(b)[33] == '-';
    }
  }

  /** A key names one bucket: a week key is never a month key. */
  lemma KeyInjective(a: Bucket, b: Bucket)
    requires InRange(a) && InRange(b) && !a.KeepAll? && !b.KeepAll? && Key(a) == Key(b)
    ensures a == b
  {
    KeyShape(a);
    KeyShape(b);
    DecimalInjective(a.year, b.year);
    TwoDigitsInjective(Number(a), Number(b));
  }

  // ---- What is kept, by position in the ascending list of versions ---------

  ghost predicate KeepsAt(vs: seq<ManifestEntry>, tier: Tiering, i: int)
    requires 0 <= i < |vs|
  {
    || i == |vs| - 1
    || tier(vs[i]).KeepAll?
    || forall j :: i < j < |vs| - 1 ==> tier(vs[j]) != tier(vs[i])
  }

  ghost function KeptFrom(vs: seq<ManifestEntry>, tier: Tiering, i: nat): seq<ManifestEntry>
    requires i <= |vs|
    decreases |vs| - i
  {
    if i == |vs| then []
    else (if KeepsAt(vs, tier, i) then [vs[i]] else []) + KeptFrom(vs, tier, i + 1)
  }

  function LastOf<T>(s: seq<T>, max: int): seq<T> {
    if 0 < max < |s| then s[|s| - max..] else s
  }

  ghost function Selected(vs: seq<ManifestEntry>, tier: Tiering, max: int): seq<ManifestEntry> {
    LastOf(KeptFrom(vs, tier, 0), max)
  }

  lemma ReverseCons<T>(x: T, s: seq<T>)
    ensures Reverse([x] + s) == Reverse(s) + [x]
  {
    assert ([x] + s)[1..] == s;
  }

  lemma KeptUnfold(vs: seq<ManifestEntry>, tier: Tiering, i: nat)
    requires i < |vs|
    ensures KeptFrom(vs, tier, i) ==
      if KeepsAt(vs, tier, i) then [vs[i]] + KeptFrom(vs, tier, i + 1) else KeptFrom(vs, tier, i + 1)
  {
  }

  lemma {:induction false} KeptAbove(vs: seq<ManifestEntry>, tier: Tiering, i: nat, v: int)
    requires i <= |vs| && forall j :: i <= j < |vs| ==> v < VersionOf(vs[j])
    ensures var kept := KeptFrom(vs, tier, i); forall k :: 0 <= k < |kept| ==> v < VersionOf(kept[k])
    decreases |vs| - i
  {
    if i < |vs| {
      KeptAbove(vs, tier, i + 1, v);
      KeptUnfold(vs, tier, i);
    }
  }

  lemma ConsSorted(e: ManifestEntry, s: seq<ManifestEntry>)
    requires StrictlySorted(s) && forall k :: 0 <= k < |s| ==> VersionOf(e) < VersionOf(s[k])
    ensures StrictlySorted([e] + s)
  {
  }

  lemma {:induction false} KeptStaysSorted(vs: seq<ManifestEntry>, tier: Tiering, i: nat)
    requires i <= |vs| && StrictlySorted(vs)
    ensures StrictlySorted(KeptFrom(vs, tier, i))
    decreases |vs| - i
  {
    hide KeepsAt;
    if i < |vs| {
      KeptStaysSorted(vs, tier, i + 1);
      var above := KeptFrom(vs, tier, i + 1);
      KeptAbove(vs, tier, i + 1, VersionOf(vs[i]));
      ConsSorted(vs[i], above);
      KeptUnfold(vs, tier, i);
      assert KeptFrom(vs, tier, i) == [vs[i]] + above || KeptFrom(vs, tier, i) == above;
    }
  }

  /** `seen` holds the keys of the buckets met above position i, and FileIDs. */
  ghost predicate SeenAbove(seen: set<string>, vs: seq<ManifestEntry>, tier: Tiering, i: int)
    requires TieringOk(tier)
  {
    && (forall j :: i < j < |vs| - 1 && 0 <= j && !tier(vs[j]).KeepAll? ==>
          Key(tier(vs[j])) in seen)
    && (forall k :: k in seen ==> IsUuid(k) || exists j ::
          i < j < |vs| - 1 && 0 <= j && !tier(vs[j]).KeepAll? && k == Key(tier(vs[j])))
  }

  /** So a lookup in `seen` answers: has this bucket been met above? */
  lemma SeenMeansBucketAbove(seen: set<string>, vs: seq<ManifestEntry>, tier: Tiering, i: nat)
    requires TieringOk(tier) && i < |vs| - 1 && SeenAbove(seen, vs, tier, i)
    requires !tier(vs[i]).KeepAll?
    ensures Key(tier(vs[i])) in seen <==> !KeepsAt(vs, tier, i)
  {
    var b := tier(vs[i]);
    KeyIsNoUuid(b);
    if Key(b) in seen {
      var j :| i < j < |vs| - 1 && !tier(vs[j]).KeepAll? && Key(b) == Key(tier(vs[j]));
      KeyInjective(b, tier(vs[j]));
    }
  }

  lemma SeenGrows(seen: set<string>, vs: seq<ManifestEntry>, tier: Tiering, i: nat, more: set<string>)
    requires TieringOk(tier) && i < |vs| - 1 && SeenAbove(seen, vs, tier, i)
    requires IsUuid(vs[i].fileId)
    requires var b := tier(vs[i]);
      if b.KeepAll? then more == {vs[i].fileId}
      else if Key(b) in seen then more == {} else more == {Key(b), vs[i].fileId}
    ensures SeenAbove(seen + more, vs, tier, i - 1)
  {
    var b := tier(vs[i]);
    forall k | k in seen + more
      ensures IsUuid(k) || exists j :: i - 1 < j < |vs| - 1 && 0 <= j && !tier(vs[j]).KeepAll? && k == Key(tier(vs[j]))
    {
      if !b.KeepAll? && k == Key(b) {
        assert i - 1 < i < |vs| - 1;
      }
    }
  }

  lemma KeptStep(vs: seq<ManifestEntry>, tier: Tiering, i: nat)
    requires i < |vs|
    ensures Reverse(KeptFrom(vs, tier, i)) ==
      Reverse(KeptFrom(vs, tier, i + 1)) + if KeepsAt(vs, tier, i) then [vs[i]] else []
  {
    KeptUnfold(vs, tier, i);
    ReverseCons(vs[i], KeptFrom(vs, tier, i + 1));
  }

  /** The downward loop of selectVersionsToKeep: newest first, one per bucket. */
  method KeepDescending(vs: seq<ManifestEntry>, tier: Tiering) returns (keep: seq<ManifestEntry>)
    requires TieringOk(tier) && vs != [] && forall i :: 0 <= i < |vs| ==> IsUuid(vs[i].fileId)
    ensures keep == Reverse(KeptFrom(vs, tier, 0))
  {
    hide Key;
    keep := [vs[|vs| - 1]];
    var seen := {vs[|vs| - 1].fileId};
    var i := |vs| - 2;
    KeptStep(vs, tier, |vs| - 1);
    while i >= 0
      invariant -1 <= i <= |vs| - 2
      invariant SeenAbove(seen, vs, tier, i)
      invariant keep == Reverse(KeptFrom(vs, tier, i + 1))
    {
      var e := vs[i];
      var keepIt, more := Decide(seen, vs, tier, i);
      if keepIt {
        keep := keep + [e];
      }
      KeptStep(vs, tier, i);
      seen := seen + more;
      i := i - 1;
    }
  }

  /** One round of the loop: keep version i or not, and what to remember. */
  method Decide(seen: set<string>, vs: seq<ManifestEntry>, tier: Tiering, i: nat)
    returns (keepIt: bool, more: set<string>)
    requires TieringOk(tier) && i < |vs| - 1 && SeenAbove(seen, vs, tier, i) && IsUuid(vs[i].fileId)
    ensures keepIt <==> KeepsAt(vs, tier, i)
    ensures SeenAbove(seen + more, vs, tier, i - 1)
  {
    var b := tier(vs[i]);
    if b.KeepAll? {
      keepIt, more := true, {vs[i].fileId};
    } else if Key(b) !in seen {
      keepIt, more := true, {Key(b), vs[i].fileId};
      SeenMeansBucketAbove(seen, vs, tier, i);
    } else {
      keepIt, more := false, {};
      SeenMeansBucketAbove(seen, vs, tier, i);
    }
    SeenGrows(seen, vs, tier, i, more);
  }

  method SelectVersionsToKeep(vs: seq<ManifestEntry>, tier: Tiering, max: int) returns (keep: seq<ManifestEntry>)
    requires TieringOk(tier) && StrictlySorted(vs) && forall i :: 0 <= i < |vs| ==> IsUuid(vs[i].fileId)
    ensures keep == Selected(vs, tier, max)
  {
    if vs == [] {
      return [];
    }
    var desc := KeepDescending(vs, tier);
    var a := new ManifestEntry[|desc|](i requires 0 <= i < |desc| => desc[i]);
    assert a[..] == desc;
    SortByVersion(a);
    KeptStaysSorted(vs, tier, 0);
    SortDescending(KeptFrom(vs, tier, 0));
    keep := a[..];
    if max > 0 && |keep| > max {
      keep := keep[|keep| - max..];
    }
  }

  // ---- The result, one version at a time -----------------------------------

  lemma {:induction false} KeptSuffix(vs: seq<ManifestEntry>, tier: Tiering, i: nat)
    requires i <= |vs|
    ensures var all, from := KeptFrom(vs, tier, 0), KeptFrom(vs, tier, i);
      |from| <= |all| && all[|all| - |from|..] == from
  {
    hide KeepsAt, KeptFrom;
    if i > 0 {
      KeptSuffix(vs, tier, i - 1);
      KeptUnfold(vs, tier, i - 1);
      var all, before, from := KeptFrom(vs, tier, 0), KeptFrom(vs, tier, i - 1), KeptFrom(vs, tier, i);
      assert before[|before| - |from|..] == from;
      assert all[|all| - |from|..] == all[|all| - |before|..][|before| - |from|..];
    }
  }

  lemma KeptNone(vs: seq<ManifestEntry>, tier: Tiering)
    ensures KeptFrom(vs, tier, |vs|) == []
  {
  }

  lemma {:induction false} KeptMember(vs: seq<ManifestEntry>, tier: Tiering, i: nat, e: ManifestEntry) returns (j: nat)
    requires i <= |vs| && e in KeptFrom(vs, tier, i)
    ensures i <= j < |vs| && vs[j] == e && KeepsAt(vs, tier, j)
    decreases |vs| - i
  {
    hide KeepsAt, KeptFrom;
    KeptNone(vs, tier);
    KeptUnfold(vs, tier, i);
    if e in KeptFrom(vs, tier, i + 1) {
      j := KeptMember(vs, tier, i + 1, e);
    } else {
      j := i;
    }
  }

  /** Version i is kept if and only if its tier keeps it and, under a cap, fewer than
      `max` higher versions are kept by theirs. */
  lemma SelectedExactly(vs: seq<ManifestEntry>, tier: Tiering, max: int, i: nat)
    requires StrictlySorted(vs) && i < |vs|
    ensures vs[i] in Selected(vs, tier, max) <==>
      KeepsAt(vs, tier, i) && (max > 0 ==> |KeptFrom(vs, tier, i + 1)| < max)
  {
    var all, above := KeptFrom(vs, tier, 0), KeptFrom(vs, tier, i + 1);
    KeptStaysSorted(vs, tier, 0);
    if KeepsAt(vs, tier, i) {
      KeptSuffix(vs, tier, i);
      KeptUnfold(vs, tier, i);
      var at := |all| - 1 - |above|;
      assert all[at..] == [vs[i]] + above;
      assert all[at] == vs[i];
      InLastOf(all, max, at);
    } else if vs[i] in Selected(vs, tier, max) {
      assert vs[i] in all;
      var j := KeptMember(vs, tier, 0, vs[i]);
    }
  }

  lemma InLastOf(s: seq<ManifestEntry>, max: int, at: nat)
    requires StrictlySorted(s) && at < |s|
    ensures s[at] in LastOf(s, max) <==> (max > 0 ==> |s| - 1 - at < max)
  {
    if 0 < max < |s| {
      if |s| - max <= at {
        assert s[|s| - max..][at - (|s| - max)] == s[at];
      }
    }
  }

  /** The FileIDs of the kept versions from position i up. */
  ghost function KeptIds(vs: seq<ManifestEntry>, tier: Tiering, i: nat): set<string>
    requires i <= |vs|
    decreases |vs| - i
  {
    if i == |vs| then {}
    else (if KeepsAt(vs, tier, i) then {vs[i].fileId} else {}) + KeptIds(vs, tier, i + 1)
  }

  lemma {:induction false} KeptIdsMember(vs: seq<ManifestEntry>, tier: Tiering, i: nat, id: string)
    requires i <= |vs|
    ensures id in KeptIds(vs, tier, i) <==> exists j :: i <= j < |vs| && KeepsAt(vs, tier, j) && vs[j].fileId == id
    decreases |vs| - i
  {
    hide KeepsAt;
    if i < |vs| {
      KeptIdsMember(vs, tier, i + 1, id);
      if KeepsAt(vs, tier, i) && vs[i].fileId == id {
        assert i <= i < |vs|;
      }
    }
  }

  lemma {:induction false} KeptCount(vs: seq<ManifestEntry>, tier: Tiering, i: nat)
    requires i <= |vs| && forall a, b :: 0 <= a < b < |vs| ==> vs[a].fileId != vs[b].fileId
    ensures |KeptIds(vs, tier, i)| == |KeptFrom(vs, tier, i)|
    decreases |vs| - i
  {
    hide KeepsAt;
    if i < |vs| {
      KeptCount(vs, tier, i + 1);
      KeptUnfold(vs, tier, i);
      KeptIdsMember(vs, tier, i + 1, vs[i].fileId);
      assert KeptIds(vs, tier, i) ==
        (if KeepsAt(vs, tier, i) then {vs[i].fileId} else {}) + KeptIds(vs, tier, i + 1);
    }
  }

  // ---- One version per week and per month ----------------------------------

  /** Of the versions selected, no two outside the keep-all window share a week or a month. */
  ghost predicate OnePerBucket(vs: seq<ManifestEntry>, tier: Tiering, max: int) {
    forall i, j :: 0 <= i < j < |vs| && vs[i] in Selected(vs, tier, max) && vs[j] in Selected(vs, tier, max) ==>
      tier(vs[i]).KeepAll? || tier(vs[i]) != tier(vs[j])
  }

  /** Version i below the newest shares its bucket, and the cap does not cut it off. */
  ghost predicate SharesWithNewest(vs: seq<ManifestEntry>, tier: Tiering, max: int, i: nat)
    requires i < |vs| - 1
  {
    tier(vs[i]) == tier(vs[|vs| - 1]) && (max > 0 ==> |KeptFrom(vs, tier, i + 1)| < max)
  }

  /** The highest version below the newest that shares its bucket, if any at or above i does. */
  lemma {:induction false} HighestSharing(vs: seq<ManifestEntry>, tier: Tiering, i: nat) returns (k: nat)
    requires i < |vs| - 1 && tier(vs[i]) == tier(vs[|vs| - 1])
    ensures i <= k < |vs| - 1 && tier(vs[k]) == tier(vs[|vs| - 1])
    ensures forall j :: k < j < |vs| - 1 ==> tier(vs[j]) != tier(vs[|vs| - 1])
    decreases |vs| - i
  {
    if j: nat :| i < j < |vs| - 1 && tier(vs[j]) == tier(vs[|vs| - 1]) {
      k := HighestSharing(vs, tier, j);
    } else {
      k := i;
    }
  }

  lemma {:induction false} FewerAbove(vs: seq<ManifestEntry>, tier: Tiering, i: nat, k: nat)
    requires i <= k <= |vs|
    ensures |KeptFrom(vs, tier, k)| <= |KeptFrom(vs, tier, i)|
    decreases k - i
  {
    hide KeepsAt;
    if i < k {
      KeptUnfold(vs, tier, i);
      FewerAbove(vs, tier, i + 1, k);
    }
  }

  /** The promise of one version per ISO week and per month, with or without a cap, holds if
      and only if the newest version is in the keep-all window, or no other version that the
      cap leaves shares its week or month. */
  lemma OnePerBucketIff(vs: seq<ManifestEntry>, tier: Tiering, max: int)
    requires StrictlySorted(vs)
    ensures OnePerBucket(vs, tier, max) <==>
      vs == [] || tier(vs[|vs| - 1]).KeepAll? || forall i :: 0 <= i < |vs| - 1 ==> !SharesWithNewest(vs, tier, max, i)
  {
    if vs != [] && !tier(vs[|vs| - 1]).KeepAll? {
      if i: nat :| i < |vs| - 1 && SharesWithNewest(vs, tier, max, i) {
        BothSelected(vs, tier, max, i);
      } else {
        assert forall i :: 0 <= i < |vs| - 1 ==> !SharesWithNewest(vs, tier, max, i);
      }
    }
    if vs == [] || tier(vs[|vs| - 1]).KeepAll? || forall i :: 0 <= i < |vs| - 1 ==> !SharesWithNewest(vs, tier, max, i) {
      forall i, j | 0 <= i < j < |vs| && vs[i] in Selected(vs, tier, max) && vs[j] in Selected(vs, tier, max)
        && !tier(vs[i]).KeepAll?
        ensures tier(vs[i]) != tier(vs[j])
      {
        SelectedExactly(vs, tier, max, i);
        if j == |vs| - 1 && tier(vs[i]) == tier(vs[j]) {
          assert SharesWithNewest(vs, tier, max, i);
        }
      }
    }
  }

  lemma KeptWhenHighest(vs: seq<ManifestEntry>, tier: Tiering, k: nat)
    requires k < |vs| && forall j :: k < j < |vs| - 1 ==> tier(vs[j]) != tier(vs[k])
    ensures KeepsAt(vs, tier, k) && KeepsAt(vs, tier, |vs| - 1)
  {
  }

  lemma BothSelected(vs: seq<ManifestEntry>, tier: Tiering, max: int, i: nat)
    requires StrictlySorted(vs) && i < |vs| - 1 && SharesWithNewest(vs, tier, max, i) && !tier(vs[i]).KeepAll?
    ensures !OnePerBucket(vs, tier, max)
  {
    hide KeepsAt, KeptFrom, Selected, StrictlySorted;
    var n := |vs| - 1;
    var k := HighestSharing(vs, tier, i);
    FewerAbove(vs, tier, i + 1, k + 1);
    KeptWhenHighest(vs, tier, k);
    SelectedExactly(vs, tier, max, k);
    KeptNone(vs, tier);
    SelectedExactly(vs, tier, max, n);
    assert vs[k] in Selected(vs, tier, max) && vs[n] in Selected(vs, tier, max);
  }

  /** Two versions of one file from one month, both kept: version 1 was backed up first. */
  lemma TwoVersionsOfOneMonth(old_: ManifestEntry, newest: ManifestEntry, cal: Calendar)
    requires old_.version == 1 && newest.version == 2 && old_.backedAt == 1 && newest.backedAt == 2 && cal.month(1) == cal.month(2)
    ensures var tier := TierOf(Policy(0, 0, 0), 3, cal);
      && tier(old_).Month? && tier(old_) == tier(newest)
      && StrictlySorted([old_, newest]) && Selected([old_, newest], tier, 0) == [old_, newest]
      && !OnePerBucket([old_, newest], tier, 0)
  {
    var vs, tier := [old_, newest], TierOf(Policy(0, 0, 0), 3, cal);
    assert Window(0) == 0;
    assert tier(old_) == BucketOf(old_, Policy(0, 0, 0), 3, cal) && tier(newest) == BucketOf(newest, Policy(0, 0, 0), 3, cal);
    KeptNone(vs, tier);
    KeptUnfold(vs, tier, 1);
    KeptUnfold(vs, tier, 0);
    assert KeepsAt(vs, tier, 0) && KeepsAt(vs, tier, 1);
    assert vs[0] in Selected(vs, tier, 0) && vs[1] in Selected(vs, tier, 0);
  }
}
