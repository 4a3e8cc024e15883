/** Every run of one invite manager and the handler that admits buddies through it. */
module InviteRuns {
  import opened Base
  import opened Protocol
  import opened Invite
  import Foreign

  /** `joined` lists the peers added to the registry, one for each admission. */
  datatype State = State(saved: Saved, joined: seq<string>)

  /** `joins` is false when the handler stops between accepting and adding. */
  datatype Event =
    | Generate(token: bytes, now: Time)
    | Commit(hash: bytes, expiresAt: Time)
    | Request(token: bytes, now: Time, peer: string, joins: bool)

  function Step(lib: Foreign.Lib, s: State, e: Event): State {
    match e
    case Generate(token, now) => s.(saved := s.saved.(pending := AfterGenerate(s.saved.pending, token, now)))
    case Commit(hash, expiresAt) =>
      s.(saved := s.saved.(commitments := s.saved.commitments + [Commitment(hash, expiresAt)]))
    case Request(token, now, peer, joins) =>
      State(Requested(lib, s.saved, token, now),
            if Admits(lib, s.saved, token, now) && joins then s.joined + [peer] else s.joined)
  }

  ghost predicate IsRun(lib: Foreign.Lib, states: seq<State>, events: seq<Event>) {
    && |states| == |events| + 1 && states[0] == State(Saved([], []), [])
    && forall i :: 0 <= i < |events| ==> states[i + 1] == Step(lib, states[i], events[i])
  }

  predicate ByToken(s: State, e: Event) { e.Request? && AnyAccepts(s.saved.pending, e.token, e.now) }

  predicate ByCommitment(lib: Foreign.Lib, s: State, e: Event) {
    && e.Request? && !ByToken(s, e)
    && FirstMatch(s.saved.commitments, lib.sha(e.token), e.now) < |s.saved.commitments|
  }

  // ---- Buddies are bounded by invites --------------------------------------

  lemma {:induction false} AcceptShortens(pending: seq<Pending>, token: bytes, now: Time)
    ensures AnyAccepts(pending, token, now) ==> |AfterConsume(pending, token, now)| < |pending|
  {
    if pending != [] {
      AcceptShortens(pending[..|pending| - 1], token, now);
      AcceptsSnoc(pending, |pending| - 1, token, now);
      assert pending[..|pending|] == pending;
    }
  }

  /** A request changes the stored invites exactly when it is admitted. */
  lemma RejectedIffUnchanged(lib: Foreign.Lib, s: Saved, token: bytes, now: Time)
    ensures Requested(lib, s, token, now) == s <==> !Admits(lib, s, token, now)
    ensures Admits(lib, s, token, now) ==>
      |Requested(lib, s, token, now).pending| + |Requested(lib, s, token, now).commitments| < |s.pending| + |s.commitments|
  {
    AcceptShortens(s.pending, token, now);
    var i := FirstMatch(s.commitments, lib.sha(token), now);
    assert i < |s.commitments| ==> |Without(s.commitments, i)| == |s.commitments| - 1;
  }

  function Issued(events: seq<Event>, k: nat): nat
    requires k <= |events|
  {
    if k == 0 then 0 else Issued(events, k - 1) + if events[k - 1].Request? then 0 else 1
  }

  function Weight(s: State): nat { |s.joined| + |s.saved.pending| + |s.saved.commitments| }

  lemma RequestWeight(lib: Foreign.Lib, s: State, e: Event)
    requires e.Request?
    ensures Weight(Step(lib, s, e)) <= Weight(s)
  {
    hide Requested, Admits;
    RejectedIffUnchanged(lib, s.saved, e.token, e.now);
  }

  lemma IssueWeight(lib: Foreign.Lib, s: State, e: Event)
    requires !e.Request?
    ensures Weight(Step(lib, s, e)) <= Weight(s) + 1
  {
  }

  /** Buddies joined and invites still stored never exceed tokens generated plus commitments added. */
  lemma {:induction false} BuddiesAtMostInvites(lib: Foreign.Lib, states: seq<State>, events: seq<Event>, k: nat)
    requires IsRun(lib, states, events) && k <= |events|
    ensures var s := states[k];
      |s.joined| + |s.saved.pending| + |s.saved.commitments| <= Issued(events, k)
  {
    hide Step;
    if k > 0 {
      BuddiesAtMostInvites(lib, states, events, k - 1);
      var s, e := states[k - 1], events[k - 1];
      assert states[k - 1 + 1] == Step(lib, s, e);
      if e.Request? {
        RequestWeight(lib, s, e);
      } else {
        IssueWeight(lib, s, e);
      }
    }
  }

  // ---- When a token is accepted --------------------------------------------

  ghost predicate GeneratedAt(events: seq<Event>, g: nat, p: Pending) {
    g < |events| && events[g].Generate? && events[g].token == p.token && events[g].now + INVITE_TTL == p.expiresAt
  }

  /** An event that leaves the invite alone: no pruning of it, no use of its token. */
  predicate Spares(s: State, e: Event, p: Pending) {
    (e.Generate? ==> p.expiresAt > e.now) && (ByToken(s, e) ==> p.expiresAt >= e.now && p.token != e.token)
  }

  ghost predicate Live(states: seq<State>, events: seq<Event>, g: nat, i: nat, p: Pending)
    requires |states| == |events| + 1 && i <= |events|
  {
    forall j :: g < j < i ==> Spares(states[j], events[j], p)
  }

  ghost predicate Origin(states: seq<State>, events: seq<Event>, i: nat, p: Pending)
    requires |states| == |events| + 1 && i <= |events|
  {
    exists g :: 0 <= g < i && GeneratedAt(events, g, p) && Live(states, events, g, i, p)
  }

  lemma PendingStep(lib: Foreign.Lib, s: State, e: Event, p: Pending)
    ensures p in Step(lib, s, e).saved.pending <==>
      (p in s.saved.pending && Spares(s, e, p)) || (e.Generate? && p == Pending(e.token, e.now + INVITE_TTL))
  {
    var before, after := s.saved.pending, Step(lib, s, e).saved.pending;
    CountHas(before, p);
    CountHas(after, p);
    if e.Generate? {
      GenerateKeepsOthers(before, e.token, e.now, p);
    } else if ByToken(s, e) {
      ConsumeKeepsOthers(before, e.token, e.now, p);
    }
  }

  lemma OriginStep(states: seq<State>, events: seq<Event>, i: nat, p: Pending)
    requires |states| == |events| + 1 && 0 < i <= |events|
    ensures Origin(states, events, i, p) <==>
      (Origin(states, events, i - 1, p) && Spares(states[i - 1], events[i - 1], p)) || GeneratedAt(events, i - 1, p)
  {
    if Origin(states, events, i, p) {
      var g :| 0 <= g < i && GeneratedAt(events, g, p) && Live(states, events, g, i, p);
      if g < i - 1 {
        assert Live(states, events, g, i - 1, p);
      }
    }
    if Origin(states, events, i - 1, p) && Spares(states[i - 1], events[i - 1], p) {
      var g :| 0 <= g < i - 1 && GeneratedAt(events, g, p) && Live(states, events, g, i - 1, p);
      assert Live(states, events, g, i, p);
    }
    if GeneratedAt(events, i - 1, p) {
      assert Live(states, events, i - 1, i, p);
    }
  }

  lemma {:induction false} PendingIffLive(lib: Foreign.Lib, states: seq<State>, events: seq<Event>, i: nat, p: Pending)
    requires IsRun(lib, states, events) && i <= |events|
    ensures p in states[i].saved.pending <==> Origin(states, events, i, p)
  {
    if i > 0 {
      PendingIffLive(lib, states, events, i - 1, p);
      assert states[i - 1 + 1] == Step(lib, states[i - 1], events[i - 1]);
      hide Step, Origin, Spares;
      PendingStep(lib, states[i - 1], events[i - 1], p);
      OriginStep(states, events, i, p);
    }
  }

  /** Request i used up a token: only that changes the stored invites at a request. */
  ghost predicate TookToken(states: seq<State>, events: seq<Event>, i: nat)
    requires |states| == |events| + 1 && i < |events|
  {
    events[i].Request? && states[i + 1].saved.pending != states[i].saved.pending
  }

  lemma TookTokenIff(lib: Foreign.Lib, states: seq<State>, events: seq<Event>, i: nat)
    requires IsRun(lib, states, events) && i < |events|
    ensures TookToken(states, events, i) <==> ByToken(states[i], events[i])
    ensures TookToken(states, events, i) ==>
      states[i + 1].joined == states[i].joined + if events[i].joins then [events[i].peer] else []
  {
    assert states[i + 1] == Step(lib, states[i], events[i]);
    if events[i].Request? {
      AcceptShortens(states[i].saved.pending, events[i].token, events[i].now);
    }
  }

  /** Event j neither prunes an invite of `token` that expires at `until`, nor uses the token up,
      nor drops the invite while using up another. */
  ghost predicate Spared(states: seq<State>, events: seq<Event>, j: nat, token: bytes, until: Time)
    requires |states| == |events| + 1 && j < |events|
  {
    && (events[j].Generate? ==> events[j].now < until)
    && (TookToken(states, events, j) ==> events[j].token != token && events[j].now <= until)
  }

  /** A request uses up a token if and only if that token was generated at most 24 hours before
      and every event in between spared it; so never after expiry, and never twice for one Generate. */
  lemma AcceptedIff(lib: Foreign.Lib, states: seq<State>, events: seq<Event>, i: nat)
    requires IsRun(lib, states, events) && i < |events| && events[i].Request?
    ensures TookToken(states, events, i) <==>
      exists g :: 0 <= g < i && LiveToken(states, events, g, i)
  {
    TookTokenIff(lib, states, events, i);
    var pending, e := states[i].saved.pending, events[i];
    AcceptsIff(pending, e.token, e.now);
    if ByToken(states[i], e) {
      var p: Pending :| p in pending && p.token == e.token && p.expiresAt >= e.now;
      PendingIffLive(lib, states, events, i, p);
      var g :| 0 <= g < i && GeneratedAt(events, g, p) && Live(states, events, g, i, p);
      LiveIff(lib, states, events, g, i, p);
      assert LiveToken(states, events, g, i);
    }
    if g :| 0 <= g < i && LiveToken(states, events, g, i) {
      var p := Pending(e.token, events[g].now + INVITE_TTL);
      LiveIff(lib, states, events, g, i, p);
      assert GeneratedAt(events, g, p);
      PendingIffLive(lib, states, events, i, p);
    }
  }

  /** Event g generated the token that request i presents, no more than 24 hours earlier, and
      all events in between spared it. */
  ghost predicate LiveToken(states: seq<State>, events: seq<Event>, g: nat, i: nat)
    requires |states| == |events| + 1 && i < |events| && events[i].Request?
  {
    && g < i && events[g].Generate? && events[g].token == events[i].token
    && events[i].now <= events[g].now + 24 * 3600 * 1_000_000_000
    && AllSpared(states, events, g, i, events[i].token, events[g].now + 24 * 3600 * 1_000_000_000)
  }

  ghost predicate AllSpared(states: seq<State>, events: seq<Event>, g: nat, i: nat, token: bytes, until: Time)
    requires |states| == |events| + 1 && i <= |events|
  {
    forall j :: g < j < i ==> Spared(states, events, j, token, until)
  }

  lemma LiveIff(lib: Foreign.Lib, states: seq<State>, events: seq<Event>, g: nat, i: nat, p: Pending)
    requires IsRun(lib, states, events) && i <= |events|
    ensures Live(states, events, g, i, p) <==> AllSpared(states, events, g, i, p.token, p.expiresAt)
  {
    hide ByToken, TookToken;
    forall j: nat | g < j < i ensures Spares(states[j], events[j], p) <==> Spared(states, events, j, p.token, p.expiresAt) {
      TookTokenIff(lib, states, events, j);
      ByTokenIsRequest(states[j], events[j]);
    }
  }

  lemma ByTokenIsRequest(s: State, e: Event)
    ensures ByToken(s, e) ==> e.Request?
  {
  }

  /** A request without a live token is admitted, and its sender joins, if and only if an
      unexpired commitment with the digest of what it presents is stored. */
  lemma RedeemedIff(lib: Foreign.Lib, states: seq<State>, events: seq<Event>, i: nat)
    requires IsRun(lib, states, events) && i < |events| && events[i].Request? && !TookToken(states, events, i)
    ensures var cs := states[i].saved.commitments;
      && (states[i + 1].saved.commitments != cs <==>
            exists c: Commitment :: c in cs && c.hash == lib.sha(events[i].token) && events[i].now <= c.expiresAt)
      && (events[i].joins && states[i + 1].saved.commitments != cs ==> states[i + 1].joined == states[i].joined + [events[i].peer])
      && (states[i + 1].saved.commitments == cs ==> states[i + 1] == states[i])
  {
    TookTokenIff(lib, states, events, i);
    var cs, e := states[i].saved.commitments, events[i];
    MatchIff(cs, lib.sha(e.token), e.now);
    assert states[i + 1] == Step(lib, states[i], e);
    var m := FirstMatch(cs, lib.sha(e.token), e.now);
    assert m < |cs| ==> |Without(cs, m)| == |cs| - 1;
  }

  // ---- Commitments ---------------------------------------------------------

  function WithHash(cs: seq<Commitment>, hash: bytes): nat {
    if cs == [] then 0 else WithHash(cs[..|cs| - 1], hash) + if cs[|cs| - 1].hash == hash then 1 else 0
  }

  lemma WithHashSnoc(cs: seq<Commitment>, c: Commitment, hash: bytes)
    ensures WithHash(cs + [c], hash) == WithHash(cs, hash) + if c.hash == hash then 1 else 0
  {
    assert (cs + [c])[..|cs|] == cs;
  }

  lemma {:induction false} WithHashWithout(cs: seq<Commitment>, i: nat, hash: bytes)
    requires i < |cs|
    ensures WithHash(Without(cs, i), hash) == WithHash(cs, hash) - if cs[i].hash == hash then 1 else 0
  {
    hide WithHash;
    var last := |cs| - 1;
    var front, c := cs[..last], cs[last];
    assert cs == front + [c];
    WithHashSnoc(front, c, hash);
    if i < last {
      WithHashWithout(front, i, hash);
      WithHashSnoc(Without(front, i), c, hash);
      assert Without(cs, i) == Without(front, i) + [c];
    } else {
      assert Without(cs, i) == front;
    }
  }

  function Committed(events: seq<Event>, k: nat, hash: bytes): nat
    requires k <= |events|
  {
    if k == 0 then 0
    else Committed(events, k - 1, hash) + if events[k - 1].Commit? && events[k - 1].hash == hash then 1 else 0
  }

  ghost function Redeemed(lib: Foreign.Lib, states: seq<State>, events: seq<Event>, k: nat, hash: bytes): nat
    requires |states| == |events| + 1 && k <= |events|
  {
    if k == 0 then 0
    else Redeemed(lib, states, events, k - 1, hash)
         + if ByCommitment(lib, states[k - 1], events[k - 1]) && lib.sha(events[k - 1].token) == hash then 1 else 0
  }

  lemma CommitmentStep(lib: Foreign.Lib, s: State, e: Event, hash: bytes)
    ensures WithHash(Step(lib, s, e).saved.commitments, hash)
         == WithHash(s.saved.commitments, hash) + (if e.Commit? && e.hash == hash then 1 else 0)
            - if ByCommitment(lib, s, e) && lib.sha(e.token) == hash then 1 else 0
  {
    var cs := s.saved.commitments;
    if e.Commit? {
      WithHashSnoc(cs, Commitment(e.hash, e.expiresAt), hash);
    } else if ByCommitment(lib, s, e) {
      WithHashWithout(cs, FirstMatch(cs, lib.sha(e.token), e.now), hash);
    }
  }

  /** Every commitment is redeemed at most once: those redeemed and those left are those added. */
  lemma {:induction false} CommitmentsBalance(lib: Foreign.Lib, states: seq<State>, events: seq<Event>, k: nat, hash: bytes)
    requires IsRun(lib, states, events) && k <= |events|
    ensures Redeemed(lib, states, events, k, hash) + WithHash(states[k].saved.commitments, hash) == Committed(events, k, hash)
  {
    hide ByCommitment, Step;
    if k > 0 {
      CommitmentsBalance(lib, states, events, k - 1, hash);
      assert states[k - 1 + 1] == Step(lib, states[k - 1], events[k - 1]);
      CommitmentStep(lib, states[k - 1], events[k - 1], hash);
    }
  }

  lemma {:induction false} CommitmentsWereAdded(lib: Foreign.Lib, states: seq<State>, events: seq<Event>, i: nat, c: Commitment)
    requires IsRun(lib, states, events) && i <= |events| && c in states[i].saved.commitments
    ensures exists g :: 0 <= g < i && events[g] == Commit(c.hash, c.expiresAt)
  {
    var before, e := states[i - 1].saved.commitments, events[i - 1];
    assert states[i - 1 + 1] == Step(lib, states[i - 1], e);
    if c in before {
      CommitmentsWereAdded(lib, states, events, i - 1, c);
    }
  }

  /** A redeemed pre-image has the digest of a commitment that was added and has not expired. */
  lemma RedeemedIsUnexpired(lib: Foreign.Lib, states: seq<State>, events: seq<Event>, i: nat)
    requires IsRun(lib, states, events) && i < |events| && ByCommitment(lib, states[i], events[i])
    ensures exists g :: 0 <= g < i && events[g].Commit? && events[g].hash == lib.sha(events[i].token)
                        && events[i].now <= events[g].expiresAt
  {
    var cs, e := states[i].saved.commitments, events[i];
    var c := cs[FirstMatch(cs, lib.sha(e.token), e.now)];
    CommitmentsWereAdded(lib, states, events, i, c);
    var g :| 0 <= g < i && events[g] == Commit(c.hash, c.expiresAt);
  }
}
