/** internal/watcher: the debounce loop, its timers, and callbacks that may run late. */
module Watcher {

  const WRAP := 0x1_0000_0000_0000_0000  // gen is a uint64

  /** The map entry of a path. `life` names the entry and `events` counts its events;
      the program keeps only gen and timer. */
  datatype Pending = Pending(gen: nat, timer: nat, life: nat, events: nat)

  /** A callback armed and not yet run; once popped, stopping its timer is too late. */
  datatype Callback = Callback(path: string, gen: nat, life: nat, event: nat, popped: bool)

  /** One handler call: the entry it ended, and the callback that made it. */
  datatype Call = Call(path: string, life: nat, callback: Callback)

  /** `lives` lists the path of every entry ever created. */
  datatype State = State(timers: map<string, Pending>, callbacks: map<nat, Callback>, nextId: nat,
                         lives: seq<string>, calls: seq<Call>)

  datatype Step = Event(path: string) | Expire(id: nat) | Run(id: nat)

  /** p.timer.Stop(): removes a callback that has not popped. */
  function Stop(callbacks: map<nat, Callback>, id: nat): map<nat, Callback> {
    if id in callbacks && !callbacks[id].popped then callbacks - {id} else callbacks
  }

  function OnEvent(s: State, path: string): State {
    var known := path in s.timers;
    var stopped := if known then Stop(s.callbacks, s.timers[path].timer) else s.callbacks;
    var p := if known
      then Pending((s.timers[path].gen + 1) % WRAP, s.nextId, s.timers[path].life, s.timers[path].events + 1)
      else Pending(0, s.nextId, |s.lives|, 1);
    s.(timers := s.timers[path := p],
       callbacks := stopped[s.nextId := Callback(path, p.gen, p.life, p.events, false)],
       nextId := s.nextId + 1,
       lives := if known then s.lives else s.lives + [path])
  }

  predicate Fires(s: State, id: nat)
    requires id in s.callbacks
  {
    var c := s.callbacks[id];
    c.path in s.timers && s.timers[c.path].gen == c.gen
  }

  /** fire: only a callback of the current generation ends the entry and calls the handler. */
  function OnRun(s: State, id: nat): State
    requires id in s.callbacks
  {
    var c := s.callbacks[id];
    var done := s.(callbacks := s.callbacks - {id});
    if !Fires(s, id) then done
    else done.(timers := s.timers - {c.path}, calls := s.calls + [Call(c.path, s.timers[c.path].life, c)])
  }

  ghost predicate Next(s: State, step: Step, s': State) {
    match step
    case Event(path) => s' == OnEvent(s, path)
    case Expire(id) =>
      id in s.callbacks && !s.callbacks[id].popped
      && s' == s.(callbacks := s.callbacks[id := s.callbacks[id].(popped := true)])
    case Run(id) => id in s.callbacks && s.callbacks[id].popped && s' == OnRun(s, id)
  }

  ghost predicate IsRun(states: seq<State>, steps: seq<Step>) {
    && |states| == |steps| + 1 && states[0] == State(map[], map[], 0, [], [])
    && forall i :: 0 <= i < |steps| ==> Next(states[i], steps[i], states[i + 1])
  }

  /** The variables that the event loop and the timer goroutines share under one lock. */
  class Loop {
    var timers: map<string, Pending>
    var callbacks: map<nat, Callback>
    var nextId: nat
    var lives: seq<string>
    var calls: seq<Call>

    ghost function View(): State
      reads this
    {
      State(timers, callbacks, nextId, lives, calls)
    }

    constructor ()
      ensures View() == State(map[], map[], 0, [], [])
    {
      timers, callbacks, nextId, lives, calls := map[], map[], 0, [], [];
    }

    method HandleEvent(path: string)
      modifies this
      ensures View() == OnEvent(old(View()), path)
    {
      var p;
      if path in timers {
        p := timers[path];
        if p.timer in callbacks && !callbacks[p.timer].popped {
          callbacks := callbacks - {p.timer};
        }
        p := p.(gen := (p.gen + 1) % WRAP, events := p.events + 1);
      } else {
        p := Pending(0, nextId, |lives|, 1);
        lives := lives + [path];
      }
      timers := timers[path := p.(timer := nextId)];
      callbacks := callbacks[nextId := Callback(path, p.gen, p.life, p.events, false)];
      nextId := nextId + 1;
    }

    method Fire(id: nat)
      requires id in callbacks
      modifies this
      ensures View() == OnRun(old(View()), id)
    {
      var c := callbacks[id];
      callbacks := callbacks - {id};
      if c.path !in timers || timers[c.path].gen != c.gen {
        return;
      }
      calls := calls + [Call(c.path, timers[c.path].life, c)];
      timers := timers - {c.path};
    }
  }

  // ---- The invariant -------------------------------------------------------

  /** The entry's own callback, armed by its last event, is still to run. */
  ghost predicate Armed(s: State, path: string)
    requires path in s.timers
  {
    var p := s.timers[path];
    && p.timer in s.callbacks
    && s.callbacks[p.timer].path == path && s.callbacks[p.timer].gen == p.gen
    && s.callbacks[p.timer].life == p.life && s.callbacks[p.timer].event == p.events
    && p.life < |s.lives| && s.lives[p.life] == path
    && p.events >= 1 && p.gen == (p.events - 1) % WRAP
  }

  /** A callback carries the generation of the event that armed it. */
  ghost predicate CallbackOk(s: State, c: Callback) {
    && c.event >= 1 && c.gen == (c.event - 1) % WRAP && c.life < |s.lives|
    && (c.path in s.timers && s.timers[c.path].life == c.life ==> c.event <= s.timers[c.path].events)
  }

  ghost predicate TimersOk(s: State) {
    forall path :: path in s.timers ==> Armed(s, path)
  }

  ghost predicate CallbacksOk(s: State) {
    forall id :: id in s.callbacks ==> id < s.nextId && CallbackOk(s, s.callbacks[id])
  }

  /** Every entry ever created is pending or was ended by exactly one call. */
  ghost predicate LivesOk(s: State) {
    && (forall life :: 0 <= life < |s.lives| ==>
          (Pends(s, life) <==> !Called(s, life)))
    && (forall i, j :: 0 <= i < j < |s.calls| ==> s.calls[i].life != s.calls[j].life)
    && (forall i :: 0 <= i < |s.calls| ==> s.calls[i].life < |s.lives| && s.lives[s.calls[i].life] == s.calls[i].path)
  }

  ghost predicate Pends(s: State, life: nat)
    requires life < |s.lives|
  {
    s.lives[life] in s.timers && s.timers[s.lives[life]].life == life
  }

  ghost predicate Called(s: State, life: nat) {
    exists i :: 0 <= i < |s.calls| && s.calls[i].life == life
  }

  ghost predicate Inv(s: State) {
    TimersOk(s) && CallbacksOk(s) && LivesOk(s) && |s.calls| + |s.timers| == |s.lives|
  }

  /** What the event adds: the path's entry and its new callback fit each other. */
  lemma EventArms(s: State, path: string)
    requires path in s.timers ==> Armed(s, path)
    ensures Armed(OnEvent(s, path), path)
  {
    if path in s.timers {
      var events := s.timers[path].events;
      assert ((events - 1) % WRAP + 1) % WRAP == events % WRAP;
    }
  }

  lemma EventKeepsTimers(s: State, path: string)
    requires TimersOk(s) && CallbacksOk(s)
    ensures TimersOk(OnEvent(s, path))
  {
    var s' := OnEvent(s, path);
    forall q | q in s'.timers ensures Armed(s', q) {
      if q == path {
        EventArms(s, path);
      } else {
        assert Armed(s, q);
      }
    }
  }

  lemma EventKeepsCallback(s: State, path: string, id: nat)
    requires path in s.timers ==> Armed(s, path)
    requires id in s.callbacks && CallbackOk(s, s.callbacks[id])
    ensures CallbackOk(OnEvent(s, path), s.callbacks[id])
  {
  }

  lemma EventKeepsCallbacks(s: State, path: string)
    requires TimersOk(s) && CallbacksOk(s)
    ensures CallbacksOk(OnEvent(s, path))
  {
    var s' := OnEvent(s, path);
    forall id | id in s'.callbacks ensures id < s'.nextId && CallbackOk(s', s'.callbacks[id]) {
      hide CallbackOk, Armed;
      if id == s.nextId {
        EventArms(s, path);
        ArmedIsOk(s', path);
      } else {
        EventKeepsCallback(s, path, id);
      }
    }
  }

  lemma ArmedIsOk(s: State, path: string)
    requires path in s.timers && Armed(s, path)
    ensures s.timers[path].timer in s.callbacks && CallbackOk(s, s.callbacks[s.timers[path].timer])
  {
  }

  lemma EventKeepsLives(s: State, path: string)
    requires TimersOk(s) && LivesOk(s)
    ensures LivesOk(OnEvent(s, path))
  {
    var s' := OnEvent(s, path);
    forall life | 0 <= life < |s'.lives| ensures Pends(s', life) <==> !Called(s', life) {
      if life < |s.lives| {
        assert s'.lives[life] == s.lives[life];
        assert Called(s, life) <==> Called(s', life);
        if path in s.timers {
          assert Armed(s, path);
        }
      }
    }
  }

  lemma RunKeepsTimers(s: State, id: nat)
    requires TimersOk(s) && CallbacksOk(s) && id in s.callbacks
    ensures TimersOk(OnRun(s, id)) && CallbacksOk(OnRun(s, id))
  {
    var s' := OnRun(s, id);
    forall q | q in s'.timers ensures Armed(s', q) {
      assert Armed(s, q);
      assert s.timers[q].timer != id;
    }
    forall k | k in s'.callbacks ensures k < s'.nextId && CallbackOk(s', s'.callbacks[k]) {
      assert CallbackOk(s, s.callbacks[k]);
    }
  }

  lemma SameLives(s: State, s': State)
    requires LivesOk(s) && s'.timers == s.timers && s'.lives == s.lives && s'.calls == s.calls
    ensures LivesOk(s')
  {
    forall life | 0 <= life < |s'.lives| ensures Pends(s', life) <==> !Called(s', life) {
      assert Pends(s, life) <==> !Called(s, life);
    }
  }

  lemma RunKeepsLives(s: State, id: nat)
    requires TimersOk(s) && LivesOk(s) && id in s.callbacks
    ensures LivesOk(OnRun(s, id))
  {
    if Fires(s, id) {
      var s', path := OnRun(s, id), s.callbacks[id].path;
      assert Armed(s, path);
      var ended := s.timers[path].life;
      assert Pends(s, ended) && !Called(s, ended);
      forall i | 0 <= i < |s.calls| ensures s.calls[i].life != ended {
      }
      forall life | 0 <= life < |s'.lives| ensures Pends(s', life) <==> !Called(s', life) {
        if life == ended {
          assert s'.calls[|s.calls|].life == ended;
        } else {
          assert Called(s, life) <==> Called(s', life) by {
            if Called(s, life) {
              var i :| 0 <= i < |s.calls| && s.calls[i].life == life;
              assert s'.calls[i].life == life;
            }
          }
        }
      }
    } else {
      SameLives(s, OnRun(s, id));
    }
  }

  lemma StepKeepsInv(s: State, step: Step, s': State)
    requires Inv(s) && Next(s, step, s')
    ensures Inv(s')
  {
    match step
    case Event(path) =>
      EventKeepsTimers(s, path);
      EventKeepsCallbacks(s, path);
      EventKeepsLives(s, path);
    case Expire(id) =>
      ExpireKeepsInv(s, id, s');
    case Run(id) =>
      RunKeepsTimers(s, id);
      RunKeepsLives(s, id);
  }

  lemma ExpireKeepsInv(s: State, id: nat, s': State)
    requires Inv(s) && Next(s, Expire(id), s')
    ensures Inv(s')
  {
    ExpireKeepsTimers(s, id, s');
    ExpireKeepsCallbacks(s, id, s');
    SameLives(s, s');
  }

  lemma ExpireKeepsTimers(s: State, id: nat, s': State)
    requires TimersOk(s) && Next(s, Expire(id), s')
    ensures TimersOk(s')
  {
    forall q | q in s'.timers ensures Armed(s', q) {
      assert Armed(s, q);
    }
  }

  lemma ExpireKeepsCallbacks(s: State, id: nat, s': State)
    requires CallbacksOk(s) && Next(s, Expire(id), s')
    ensures CallbacksOk(s')
  {
    forall k | k in s'.callbacks ensures k < s'.nextId && CallbackOk(s', s'.callbacks[k]) {
      assert CallbackOk(s, s.callbacks[k]);
    }
  }

  lemma InitialInv(s: State)
    requires s == State(map[], map[], 0, [], [])
    ensures Inv(s)
  {
  }

  lemma {:induction false} RunsKeepInv(states: seq<State>, steps: seq<Step>, i: nat)
    requires IsRun(states, steps) && i < |states|
    ensures Inv(states[i])
  {
    hide Next, Inv;
    if i == 0 {
      InitialInv(states[0]);
    } else {
      RunsKeepInv(states, steps, i - 1);
      assert Next(states[i - 1], steps[i - 1], states[i]);
      StepKeepsInv(states[i - 1], steps[i - 1], states[i]);
    }
  }

  // ---- What the watcher promises -------------------------------------------

  /** At every point of every run, each pending path has a callback of its current
      generation still to run, handler calls are entries created minus entries pending,
      and no entry is ended twice or forgotten. */
  lemma NoBurstLostOrDoubled(states: seq<State>, steps: seq<Step>, i: nat)
    requires IsRun(states, steps) && i < |states|
    ensures var s := states[i];
      && |s.calls| == |s.lives| - |s.timers|
      && (forall path :: path in s.timers ==>
            exists id :: id in s.callbacks && s.callbacks[id].path == path && s.callbacks[id].gen == s.timers[path].gen)
      && (forall life :: 0 <= life < |s.lives| ==> (Pends(s, life) <==> !Called(s, life)))
      && (forall a, b :: 0 <= a < b < |s.calls| ==> s.calls[a].life != s.calls[b].life)
  {
    RunsKeepInv(states, steps, i);
    var s := states[i];
    forall path | path in s.timers
      ensures exists id :: id in s.callbacks && s.callbacks[id].path == path && s.callbacks[id].gen == s.timers[path].gen
    {
      assert Armed(s, path);
      assert s.timers[path].timer in s.callbacks;
    }
  }

  /** A callback fires exactly when its path is pending and its place among its own entry's
      events is, modulo 2^64, that of the pending entry's last event. */
  lemma FiresExactly(states: seq<State>, steps: seq<Step>, i: nat, id: nat)
    requires IsRun(states, steps) && i < |states| && id in states[i].callbacks
    ensures var s, c := states[i], states[i].callbacks[id];
      Fires(s, id) <==> c.path in s.timers && (c.event - s.timers[c.path].events) % WRAP == 0
  {
    RunsKeepInv(states, steps, i);
    var s, c := states[i], states[i].callbacks[id];
    assert CallbackOk(s, c);
    if c.path in s.timers {
      assert Armed(s, c.path);
      SameRemainder(c.event - 1, s.timers[c.path].events - 1);
    }
  }

  lemma SameRemainder(a: int, b: int)
    ensures a % WRAP == b % WRAP <==> (a - b) % WRAP == 0
  {
    var x, y := a / WRAP, b / WRAP;
    assert a == x * WRAP + a % WRAP && b == y * WRAP + b % WRAP;
    var d := (a - b) / WRAP;
    assert a - b == d * WRAP + (a - b) % WRAP;
  }

  /** Of the callbacks armed in one entry's life only the last can end it, as long as the
      generation has not wrapped. */
  lemma OnlyLastCallbackOfALifeFires(states: seq<State>, steps: seq<Step>, i: nat)
    requires IsRun(states, steps) && i < |steps| && steps[i].Run?
    ensures steps[i].id in states[i].callbacks
    ensures var s, c := states[i], states[i].callbacks[steps[i].id];
      c.path in s.timers && c.life == s.timers[c.path].life && s.timers[c.path].events <= WRAP ==>
        (Fires(s, steps[i].id) <==> c.event == s.timers[c.path].events)
  {
    RunsKeepInv(states, steps, i);
    assert Next(states[i], steps[i], states[i + 1]);
    var s, c := states[i], states[i].callbacks[steps[i].id];
    if c.path in s.timers && c.life == s.timers[c.path].life {
      assert Armed(s, c.path) && CallbackOk(s, c);
    }
  }

  /** Of one entry's timers only the one armed last can still expire: the others were stopped. */
  ghost predicate OneTimer(s: State) {
    forall id :: id in s.callbacks && !s.callbacks[id].popped && s.callbacks[id].path in s.timers ==>
      s.callbacks[id].life != s.timers[s.callbacks[id].path].life || id == s.timers[s.callbacks[id].path].timer
  }

  lemma StepKeepsOneTimer(s: State, step: Step, s': State)
    requires Inv(s) && OneTimer(s) && Next(s, step, s')
    ensures OneTimer(s')
  {
    hide WRAP;
    match step
    case Event(path) =>
      EventKeepsOneTimer(s, path);
    case Expire(id) =>
    case Run(id) =>
  }

  lemma EventKeepsOneTimer(s: State, path: string)
    requires Inv(s) && OneTimer(s)
    ensures OneTimer(OnEvent(s, path))
  {
    var s' := OnEvent(s, path);
    forall id | id in s'.callbacks && !s'.callbacks[id].popped && s'.callbacks[id].path in s'.timers
                && s'.callbacks[id].life == s'.timers[s'.callbacks[id].path].life
      ensures id == s'.timers[s'.callbacks[id].path].timer
    {
      if id != s.nextId {
        assert CallbackOk(s, s.callbacks[id]);
      }
    }
  }

  lemma {:induction false} OnlyOneTimerRuns(states: seq<State>, steps: seq<Step>, i: nat)
    requires IsRun(states, steps) && i < |states|
    ensures OneTimer(states[i])
  {
    hide Next, Inv, OneTimer;
    if i == 0 {
      NoTimers(states[0]);
    } else {
      OnlyOneTimerRuns(states, steps, i - 1);
      RunsKeepInv(states, steps, i - 1);
      StepKeepsOneTimer(states[i - 1], steps[i - 1], states[i]);
    }
  }

  lemma NoTimers(s: State)
    requires s == State(map[], map[], 0, [], [])
    ensures OneTimer(s)
  {
  }

  /** An id that has been given out and is gone stays gone. */
  lemma {:induction false} GoneStaysGone(states: seq<State>, steps: seq<Step>, id: nat, i: nat, j: nat)
    requires IsRun(states, steps) && i <= j < |states| && id < states[i].nextId && id !in states[i].callbacks
    ensures id < states[j].nextId && id !in states[j].callbacks
  {
    hide Fires;
    if i < j {
      GoneStaysGone(states, steps, id, i, j - 1);
      assert Next(states[j - 1], steps[j - 1], states[j]);
    }
  }

  /** A callback runs at most once. */
  lemma CallbackRunsOnce(states: seq<State>, steps: seq<Step>, i: nat, j: nat)
    requires IsRun(states, steps) && i < j < |steps| && steps[i].Run? && steps[j].Run?
    ensures steps[i].id != steps[j].id
  {
    RunsKeepInv(states, steps, i);
    assert Next(states[i], steps[i], states[i + 1]) && Next(states[j], steps[j], states[j + 1]);
    var id := steps[i].id;
    GoneStaysGone(states, steps, id, i + 1, j);
  }

  /** No callback of an earlier entry of the path is left when a new entry is made. */
  ghost predicate NoLeftovers(states: seq<State>, steps: seq<Step>) {
    |states| == |steps| + 1 && forall i, id ::
      0 <= i < |steps| && steps[i].Event? && steps[i].path !in states[i].timers && id in states[i].callbacks ==>
        states[i].callbacks[id].path != steps[i].path
  }

  ghost predicate OwnCallbacksOnly(s: State) {
    forall id :: id in s.callbacks && s.callbacks[id].path in s.timers ==>
      s.callbacks[id].life == s.timers[s.callbacks[id].path].life
  }

  lemma {:induction false} NoLeftoversMeansOwn(states: seq<State>, steps: seq<Step>, i: nat)
    requires IsRun(states, steps) && NoLeftovers(states, steps) && i < |states|
    ensures OwnCallbacksOnly(states[i])
  {
    if i > 0 {
      NoLeftoversMeansOwn(states, steps, i - 1);
      assert Next(states[i - 1], steps[i - 1], states[i]);
    }
  }

  /** Then every handler call comes from the callback its entry's last event armed. */
  lemma EveryCallIsTheLastEvents(states: seq<State>, steps: seq<Step>, i: nat)
    requires IsRun(states, steps) && NoLeftovers(states, steps) && i < |steps| && steps[i].Run?
    requires steps[i].id in states[i].callbacks && Fires(states[i], steps[i].id)
    ensures var s, c := states[i], states[i].callbacks[steps[i].id];
      c.life == s.timers[c.path].life && (s.timers[c.path].events <= WRAP ==> c.event == s.timers[c.path].events)
  {
    NoLeftoversMeansOwn(states, steps, i);
    OnlyLastCallbackOfALifeFires(states, steps, i);
  }

  /** The states of the run below. */
  function LeftoverState(p: string, i: nat): State {
    var c0, c1 := Callback(p, 0, 0, 1, false), Callback(p, 1, 0, 2, false);
    var d0, d1 := c0.(popped := true), c1.(popped := true);
    var one, two := map[p := Pending(0, 0, 0, 1)], map[p := Pending(1, 1, 0, 2)];
    if i == 0 then State(map[], map[], 0, [], [])
    else if i == 1 then State(one, map[0 := c0], 1, [p], [])
    else if i == 2 then State(one, map[0 := d0], 1, [p], [])
    else if i == 3 then State(two, map[0 := d0, 1 := c1], 2, [p], [])
    else if i == 4 then State(two, map[0 := d0, 1 := d1], 2, [p], [])
    else if i == 5 then State(map[], map[0 := d0], 2, [p], [Call(p, 0, d1)])
    else if i == 6 then
      State(map[p := Pending(0, 2, 1, 1)], map[0 := d0, 2 := Callback(p, 0, 1, 1, false)], 3, [p, p], [Call(p, 0, d1)])
    else State(map[], map[2 := Callback(p, 0, 1, 1, false)], 3, [p, p], [Call(p, 0, d1), Call(p, 1, d0)])
  }

  lemma LeftoverEvents(p: string)
    ensures Next(LeftoverState(p, 0), Event(p), LeftoverState(p, 1))
    ensures Next(LeftoverState(p, 2), Event(p), LeftoverState(p, 3))
    ensures Next(LeftoverState(p, 5), Event(p), LeftoverState(p, 6))
  {
  }

  lemma LeftoverExpiries(p: string)
    ensures Next(LeftoverState(p, 1), Expire(0), LeftoverState(p, 2))
    ensures Next(LeftoverState(p, 3), Expire(1), LeftoverState(p, 4))
  {
  }

  lemma LeftoverRuns(p: string)
    ensures Next(LeftoverState(p, 4), Run(1), LeftoverState(p, 5))
    ensures Next(LeftoverState(p, 6), Run(0), LeftoverState(p, 7))
  {
  }

  /** Without that condition a callback left over from an ended entry can end the next one
      early, because generations start again at 0: the second entry of `p` is ended by the
      first entry's first callback while its own timer has not even expired. */
  lemma LeftoverCallbackEndsNextEntry(p: string) returns (states: seq<State>, steps: seq<Step>)
    ensures IsRun(states, steps)
    ensures steps == [Event(p), Expire(0), Event(p), Expire(1), Run(1), Event(p), Run(0)]
    ensures var last := states[7];
      |last.calls| == 2 && last.calls[1].life == 1 && last.calls[1].callback.life == 0
      && last.timers == map[] && 2 in last.callbacks && !last.callbacks[2].popped
  {
    hide Next;
    steps := [Event(p), Expire(0), Event(p), Expire(1), Run(1), Event(p), Run(0)];
    states := seq(8, i requires 0 <= i < 8 => LeftoverState(p, i));
    LeftoverEvents(p);
    LeftoverExpiries(p);
    LeftoverRuns(p);
  }
}
