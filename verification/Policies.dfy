/** What a retention policy keeps, in days, weeks and months. */
module Policies {
  import opened Protocol
  import opened Versions
  import opened Retention
  import opened Lookup

  const DAY := 24 * 3600 * 1_000_000_000

  /** The longest time.Duration that is a whole number of days. */
  const MAX_DAYS := 106_751

  predicate InDays(p: Policy) {
    0 <= p.keepAllDays <= MAX_DAYS && 0 <= p.keepWeeklyDays <= MAX_DAYS
  }

  /** When a version was backed up; entries without that time count from their modification. */
  function When(e: ManifestEntry): Time {
    if e.backedAt == ZERO_TIME then e.modified else e.backedAt
  }

  /** A higher version of the same path that is not the latest. */
  ghost predicate Rival(es: Entries, id: string, o: string)
    requires id in es
  {
    o in es && es[o].path == es[id].path && VersionOf(es[o]) > VersionOf(es[id]) && !IsLatest(es, es[id].path, o)
  }

  /** The latest version, every version of the last keepAllDays, then the highest of each ISO
      week of the last keepWeeklyDays, and before that the highest of each month; the latest
      version does not count as the highest of its week or month. */
  ghost predicate Deserves(es: Entries, p: Policy, now: Time, cal: Calendar, id: string)
    requires id in es
  {
    var all, weekly, when := p.keepAllDays * DAY, p.keepWeeklyDays * DAY, When(es[id]);
    || IsLatest(es, es[id].path, id)
    || now - when <= all
    || (now - when <= weekly && forall o :: Rival(es, id, o) && all < now - When(es[o]) <= weekly ==>
          cal.isoWeek(When(es[o])) != cal.isoWeek(when))
    || (now - when > weekly && forall o :: Rival(es, id, o) && now - When(es[o]) > weekly && now - When(es[o]) > all ==>
          cal.month(When(es[o])) != cal.month(when))
  }

  ghost function DeservingAbove(es: Entries, p: Policy, now: Time, cal: Calendar, id: string): set<string>
    requires id in es
  {
    set o | o in es && es[o].path == es[id].path && VersionOf(es[o]) > VersionOf(es[id]) && Deserves(es, p, now, cal, o)
  }

  /** It deserves to stay, and under a cap fewer than maxVersions higher ones of its path do. */
  ghost predicate Stays(es: Entries, p: Policy, now: Time, cal: Calendar, id: string)
    requires id in es
  {
    Deserves(es, p, now, cal, id) && (p.maxVersions > 0 ==> |DeservingAbove(es, p, now, cal, id)| < p.maxVersions)
  }

  /** The 64-bit window is the number of days meant if and only if there are at most 106751. */
  lemma WindowIsDaysIff(days: int)
    requires days >= 0
    ensures Window(days) == days * DAY <==> days <= MAX_DAYS
  {
    var x, w := days * DAY, 0x1_0000_0000_0000_0000;
    if days <= MAX_DAYS {
      assert 0 <= x + MAX_DURATION + 1 < w;
    } else {
      assert x >= (MAX_DAYS + 1) * DAY > MAX_DURATION;
    }
  }

  lemma AgeInWindow(now: Time, when: Time, days: int)
    requires 0 <= days <= MAX_DAYS
    ensures Age(now, when) <= Window(days) <==> now - when <= days * DAY
  {
    WindowIsDaysIff(days);
    hide Window;
    assert 0 <= days * DAY < MAX_DURATION;
  }

  /** The tier and its key, in days and calendar terms. */
  lemma TierLaw(e: ManifestEntry, p: Policy, now: Time, cal: Calendar)
    requires InDays(p)
    ensures TierOf(p, now, cal)(e) ==
      if now - When(e) <= p.keepAllDays * DAY then KeepAll
      else if now - When(e) <= p.keepWeeklyDays * DAY then Week(cal.isoWeek(When(e)).0, cal.isoWeek(When(e)).1)
      else Month(cal.month(When(e)).0, cal.month(When(e)).1)
  {
    hide Age, Window;
    AgeInWindow(now, When(e), p.keepAllDays);
    AgeInWindow(now, When(e), p.keepWeeklyDays);
  }

  /** Whether two entries outside the keep-all window share a tier and its key. */
  lemma SameTier(a: ManifestEntry, b: ManifestEntry, p: Policy, now: Time, cal: Calendar)
    requires InDays(p) && now - When(a) > p.keepAllDays * DAY
    ensures !TierOf(p, now, cal)(a).KeepAll?
    ensures TierOf(p, now, cal)(b) == TierOf(p, now, cal)(a) <==>
      && now - When(b) > p.keepAllDays * DAY
      && if now - When(a) <= p.keepWeeklyDays * DAY
         then now - When(b) <= p.keepWeeklyDays * DAY && cal.isoWeek(When(b)) == cal.isoWeek(When(a))
         else now - When(b) > p.keepWeeklyDays * DAY && cal.month(When(b)) == cal.month(When(a))
  {
    hide TierOf, When;
    TierLaw(a, p, now, cal);
    TierLaw(b, p, now, cal);
  }

  lemma KeptLaw(es: Entries, p: Policy, now: Time, cal: Calendar, id: string)
    requires InDays(p) && id in es
    ensures Kept(es, TierOf(p, now, cal), id) <==> Deserves(es, p, now, cal, id)
  {
    hide IsLatest, TierOf, When;
    var tier, e := TierOf(p, now, cal), es[id];
    TierLaw(e, p, now, cal);
    if now - When(e) > p.keepAllDays * DAY {
      forall o | Rival(es, id, o)
        ensures tier(es[o]) == tier(e) <==>
          && now - When(es[o]) > p.keepAllDays * DAY
          && if now - When(e) <= p.keepWeeklyDays * DAY
             then now - When(es[o]) <= p.keepWeeklyDays * DAY && cal.isoWeek(When(es[o])) == cal.isoWeek(When(e))
             else now - When(es[o]) > p.keepWeeklyDays * DAY && cal.month(When(es[o])) == cal.month(When(e))
      {
        SameTier(e, es[o], p, now, cal);
      }
      KeptMeans(es, tier, id);
    }
  }

  lemma KeptMeans(es: Entries, tier: Tiering, id: string)
    requires id in es && !tier(es[id]).KeepAll?
    ensures Kept(es, tier, id) <==>
      IsLatest(es, es[id].path, id) || forall o :: Rival(es, id, o) ==> tier(es[o]) != tier(es[id])
  {
    hide IsLatest;
  }

  /** A pruning keeps exactly the entries the policy says. */
  lemma PruneLaw(es: Entries, p: Policy, now: Time, cal: Calendar, id: string)
    requires InDays(p) && id in es
    ensures id in Pruned(es, TierOf(p, now, cal), p.maxVersions) <==> Stays(es, p, now, cal, id)
  {
    hide Kept, Deserves, TierOf;
    KeptLaw(es, p, now, cal, id);
    forall o | o in es ensures Kept(es, TierOf(p, now, cal), o) <==> Deserves(es, p, now, cal, o) {
      KeptLaw(es, p, now, cal, o);
    }
    assert KeptAboveIt(es, TierOf(p, now, cal), id) == DeservingAbove(es, p, now, cal, id);
  }
}
