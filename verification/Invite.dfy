/** internal/invite and handleInvite: one-time tokens and email-invite commitments. */
module Invite {
  import opened Base
  import opened Protocol
  import Foreign
  import Registry

  const INVITE_TTL := 24 * 3600 * 1_000_000_000

  datatype Pending = Pending(token: bytes, expiresAt: Time)
  datatype Commitment = Commitment(hash: bytes, expiresAt: Time)

  /** The saved file; an absent file is two empty lists. */
  datatype Saved = Saved(pending: seq<Pending>, commitments: seq<Commitment>)

  /** The two tests by which the loops keep an invite. */
  datatype Test = Fresh(now: Time) | Others(now: Time, token: bytes)

  predicate Keeps(test: Test, p: Pending) {
    match test
    case Fresh(now) => p.expiresAt > now
    case Others(now, token) => p.expiresAt >= now && p.token != token
  }

  function Filter(s: seq<Pending>, test: Test): (r: seq<Pending>)
    ensures |r| <= |s|
  {
    if s == [] then []
    else
      var front, last := Filter(s[..|s| - 1], test), s[|s| - 1];
      if Keeps(test, last) then front + [last] else front
  }

  function Count<T(==)>(s: seq<T>, x: T): nat {
    if s == [] then 0 else Count(s[..|s| - 1], x) + if s[|s| - 1] == x then 1 else 0
  }

  predicate Accepts(p: Pending, token: bytes, now: Time) { p.expiresAt >= now && p.token == token }

  predicate AnyAccepts(pending: seq<Pending>, token: bytes, now: Time) {
    exists i :: 0 <= i < |pending| && Accepts(pending[i], token, now)
  }

  function AfterConsume(pending: seq<Pending>, token: bytes, now: Time): seq<Pending> {
    Filter(pending, Others(now, token))
  }

  function AfterGenerate(pending: seq<Pending>, token: bytes, now: Time): seq<Pending> {
    Filter(pending, Fresh(now)) + [Pending(token, now + INVITE_TTL)]
  }

  predicate Matches(c: Commitment, hash: bytes, now: Time) { now <= c.expiresAt && c.hash == hash }

  /** The first matching commitment, or the length. */
  function FirstMatch(cs: seq<Commitment>, hash: bytes, now: Time): (i: nat)
    ensures i <= |cs|
    ensures i < |cs| ==> Matches(cs[i], hash, now)
    ensures forall j :: 0 <= j < i ==> !Matches(cs[j], hash, now)
  {
    if cs == [] then 0
    else
      var i := FirstMatch(cs[..|cs| - 1], hash, now);
      if i < |cs| - 1 then i else if Matches(cs[|cs| - 1], hash, now) then |cs| - 1 else |cs|
  }

  function Without<T>(s: seq<T>, i: nat): seq<T>
    requires i <= |s|
  {
    if i == |s| then s else s[..i] + s[i + 1..]
  }

  /** The first i elements without number `skip`. */
  ghost function Prefix<T>(s: seq<T>, skip: nat, i: nat): seq<T>
    requires i <= |s|
  {
    if skip < i then s[..skip] + s[skip + 1..i] else s[..i]
  }

  lemma PrefixNone<T>(s: seq<T>, skip: nat)
    ensures Prefix(s, skip, 0) == []
  {
  }

  lemma PrefixSnoc<T>(s: seq<T>, skip: nat, i: nat)
    requires i < |s|
    ensures Prefix(s, skip, i + 1) == Prefix(s, skip, i) + if i == skip then [] else [s[i]]
  {
  }

  lemma PrefixAll<T>(s: seq<T>, skip: nat)
    requires skip <= |s|
    ensures Prefix(s, skip, |s|) == Without(s, skip)
  {
  }

  class Manager {
    var saved: Saved

    constructor ()
      ensures saved == Saved([], [])
    {
      saved := Saved([], []);
    }

    /** Generate, with the random token and the clock given. */
    method Generate(token: bytes, now: Time)
      modifies this
      ensures saved == old(saved).(pending := AfterGenerate(old(saved).pending, token, now))
    {
      hide Filter;
      var pending := saved.pending;
      var a := new Pending[|pending|](i requires 0 <= i < |pending| => pending[i]);
      var k := 0;
      NothingYet(pending, token, now);
      for i := 0 to a.Length
        invariant saved == old(saved) && k <= i && a[i..] == pending[i..] && a[..k] == Filter(pending[..i], Fresh(now))
      {
        FilterSnoc(pending, i, Fresh(now));
        var p := a[i];
        assert p == pending[i];
        if p.expiresAt > now {
          a[k] := p;
          k := k + 1;
        }
      }
      assert pending[..a.Length] == pending;
      saved := saved.(pending := a[..k] + [Pending(token, now + INVITE_TTL)]);
    }

    method Consume(token: bytes, now: Time) returns (ok: bool)
      modifies this
      ensures ok <==> AnyAccepts(old(saved).pending, token, now)
      ensures ok <==> exists p: Pending :: p in old(saved).pending && p.token == token && p.expiresAt >= now
      ensures saved == if ok then old(saved).(pending := AfterConsume(old(saved).pending, token, now)) else old(saved)
    {
      hide Filter, AnyAccepts;
      var pending := saved.pending;
      var a := new Pending[|pending|](i requires 0 <= i < |pending| => pending[i]);
      var k := 0;
      ok := false;
      NothingYet(pending, token, now);
      for i := 0 to a.Length
        invariant saved == old(saved) && k <= i && a[i..] == pending[i..] && a[..k] == Filter(pending[..i], Others(now, token))
        invariant ok <==> AnyAccepts(pending[..i], token, now)
      {
        FilterSnoc(pending, i, Others(now, token));
        AcceptsSnoc(pending, i, token, now);
        var p := a[i];
        assert p == pending[i];
        if p.expiresAt < now {
          continue;
        }
        if p.token == token {
          ok := true;
          continue;
        }
        a[k] := p;
        k := k + 1;
      }
      assert pending[..a.Length] == pending;
      AcceptsIff(pending, token, now);
      if ok {
        saved := saved.(pending := a[..k]);
      }
    }

    method AddCommitment(hash: bytes, expiresAt: Time)
      modifies this
      ensures saved == old(saved).(commitments := old(saved).commitments + [Commitment(hash, expiresAt)])
    {
      saved := saved.(commitments := saved.commitments + [Commitment(hash, expiresAt)]);
    }

    method ConsumeCommitment(lib: Foreign.Lib, preimage: bytes, now: Time) returns (ok: bool)
      modifies this
      ensures var cs, i := old(saved).commitments, FirstMatch(old(saved).commitments, lib.sha(preimage), now);
        (ok <==> i < |cs|) && saved == old(saved).(commitments := Without(cs, i))
      ensures ok <==> exists c: Commitment :: c in old(saved).commitments && c.hash == lib.sha(preimage) && now <= c.expiresAt
    {
      var cs, h := saved.commitments, lib.sha(preimage);
      hide Prefix, FirstMatch;
      ghost var first := FirstMatch(cs, h, now);
      PrefixNone(cs, first);
      var a := new Commitment[|cs|](i requires 0 <= i < |cs| => cs[i]);
      var k := 0;
      ok := false;
      for i := 0 to a.Length
        invariant saved == old(saved) && k <= i && (ok <==> first < i)
        invariant forall j :: i <= j < a.Length ==> a[j] == cs[j]
        invariant a[..k] == Prefix(cs, first, i)
      {
        PrefixSnoc(cs, first, i);
        var c := a[i];
        assert c == cs[i];
        if !ok && now <= c.expiresAt && c.hash == h {
          ok := true;
          continue;
        }
        a[k] := c;
        k := k + 1;
      }
      MatchIff(cs, h, now);
      if ok {
        PrefixAll(cs, first);
        saved := saved.(commitments := a[..k]);
      }
    }
  }

  /** handleInvite: a token or a commitment pre-image admits the sender as a buddy;
      `ownKeyOk` says whether this node's own key could be serialised. */
  method HandleInvite(lib: Foreign.Lib, invites: Manager, reg: Registry.Handle, req: Registry.Buddy,
                      token: bytes, ownKeyOk: bool, now: Time) returns (ok: bool)
    requires reg.Valid()
    modifies invites, reg, reg.file
    ensures invites.saved == Requested(lib, old(invites.saved), token, now)
    ensures ok <==> Admits(lib, old(invites.saved), token, now) && ownKeyOk
    ensures ok ==> ownKeyOk
    ensures ownKeyOk ==> (ok <==>
      || (exists p: Pending :: p in old(invites.saved).pending && p.token == token && p.expiresAt >= now)
      || (exists c: Commitment :: c in old(invites.saved).commitments && c.hash == lib.sha(token) && now <= c.expiresAt))
    ensures reg.Valid() && Registry.Known(reg.file.content)
      == if ok then old(Registry.Known(reg.file.content))[req.peerID := Registry.Stamped(req, now)]
         else old(Registry.Known(reg.file.content))
  {
    AcceptsIff(invites.saved.pending, token, now);
    MatchIff(invites.saved.commitments, lib.sha(token), now);
    ok := invites.Consume(token, now);
    if !ok {
      ok := invites.ConsumeCommitment(lib, token, now);
      if !ok {
        return;
      }
    }
    if !ownKeyOk {
      return false;
    }
    reg.Add(req, now);
  }

  predicate Admits(lib: Foreign.Lib, s: Saved, token: bytes, now: Time) {
    AnyAccepts(s.pending, token, now) || FirstMatch(s.commitments, lib.sha(token), now) < |s.commitments|
  }

  function Requested(lib: Foreign.Lib, s: Saved, token: bytes, now: Time): Saved {
    if AnyAccepts(s.pending, token, now) then s.(pending := AfterConsume(s.pending, token, now))
    else s.(commitments := Without(s.commitments, FirstMatch(s.commitments, lib.sha(token), now)))
  }

  /** A token is accepted if and only if an invite with it is stored that has not expired. */
  lemma AcceptsIff(pending: seq<Pending>, token: bytes, now: Time)
    ensures AnyAccepts(pending, token, now) <==> exists p: Pending :: p in pending && p.token == token && p.expiresAt >= now
  {
    if p: Pending :| p in pending && p.token == token && p.expiresAt >= now {
      var i :| 0 <= i < |pending| && pending[i] == p;
      assert Accepts(pending[i], token, now);
    }
    if AnyAccepts(pending, token, now) {
      var i :| 0 <= i < |pending| && Accepts(pending[i], token, now);
      assert pending[i] in pending;
    }
  }

  /** A digest is redeemed if and only if a commitment with it is stored that has not expired. */
  lemma MatchIff(cs: seq<Commitment>, hash: bytes, now: Time)
    ensures FirstMatch(cs, hash, now) < |cs| <==> exists c: Commitment :: c in cs && c.hash == hash && now <= c.expiresAt
  {
    hide FirstMatch;
    var i := FirstMatch(cs, hash, now);
    if i < |cs| {
      assert cs[i] in cs;
    }
    if c: Commitment :| c in cs && c.hash == hash && now <= c.expiresAt {
      var j :| 0 <= j < |cs| && cs[j] == c;
      assert Matches(cs[j], hash, now);
    }
  }

  // ---- Lists ---------------------------------------------------------------

  lemma NothingYet(s: seq<Pending>, token: bytes, now: Time)
    ensures Filter(s[..0], Fresh(now)) == [] && Filter(s[..0], Others(now, token)) == []
    ensures !AnyAccepts(s[..0], token, now)
  {
  }

  lemma FilterSnoc(s: seq<Pending>, i: nat, test: Test)
    requires i < |s|
    ensures Filter(s[..i + 1], test) == Filter(s[..i], test) + if Keeps(test, s[i]) then [s[i]] else []
  {
    assert s[..i + 1][..i] == s[..i];
  }

  lemma AcceptsSnoc(s: seq<Pending>, i: nat, token: bytes, now: Time)
    requires i < |s|
    ensures AnyAccepts(s[..i + 1], token, now) <==> AnyAccepts(s[..i], token, now) || Accepts(s[i], token, now)
  {
    if AnyAccepts(s[..i], token, now) {
      var j :| 0 <= j < i && Accepts(s[..i][j], token, now);
      assert Accepts(s[..i + 1][j], token, now);
    }
    if Accepts(s[i], token, now) {
      assert Accepts(s[..i + 1][i], token, now);
    }
    if AnyAccepts(s[..i + 1], token, now) {
      var j :| 0 <= j < i + 1 && Accepts(s[..i + 1][j], token, now);
      assert j < i ==> Accepts(s[..i][j], token, now);
    }
  }

  lemma {:induction false} FilterCount(s: seq<Pending>, test: Test, x: Pending)
    ensures Count(Filter(s, test), x) == if Keeps(test, x) then Count(s, x) else 0
  {
    if s != [] {
      FilterCount(s[..|s| - 1], test, x);
      var front, last := Filter(s[..|s| - 1], test), s[|s| - 1];
      assert (front + [last])[..|front|] == front;
    }
  }

  lemma {:induction false} CountHas<T>(s: seq<T>, x: T)
    ensures Count(s, x) > 0 <==> x in s
  {
    if s != [] {
      CountHas(s[..|s| - 1], x);
      assert s == s[..|s| - 1] + [s[|s| - 1]];
    }
  }

  /** Consuming a token drops that token and expired invites; every other invite keeps its copies. */
  lemma ConsumeKeepsOthers(pending: seq<Pending>, token: bytes, now: Time, p: Pending)
    ensures Count(AfterConsume(pending, token, now), p)
         == if p.expiresAt >= now && p.token != token then Count(pending, p) else 0
  {
    FilterCount(pending, Others(now, token), p);
  }

  lemma GenerateKeepsOthers(pending: seq<Pending>, token: bytes, now: Time, p: Pending)
    ensures Count(AfterGenerate(pending, token, now), p)
         == (if p.expiresAt > now then Count(pending, p) else 0) + if p == Pending(token, now + INVITE_TTL) then 1 else 0
  {
    FilterCount(pending, Fresh(now), p);
    var kept, all := Filter(pending, Fresh(now)), AfterGenerate(pending, token, now);
    assert all[..|kept|] == kept;
  }
}
