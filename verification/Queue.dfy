/** internal/p2p/queue.go: the offline queue, whose lock is dropped while a flush sends. */
module Queue {
  import opened Base

  datatype Push = Push(owner: string, fileId: string, index: int, data: bytes)

  /** `serial` names the Enqueue call; it tells equal pushes apart and is not in the file. */
  datatype Item = Item(serial: nat, peer: string, push: Push)

  // ---- One flush that nothing interrupts -----------------------------------

  /** What a flush to `peer` writes back: other peers' items, and those not acknowledged. */
  function Remaining(items: seq<Item>, peer: string, acked: Item -> bool): seq<Item> {
    if items == [] then []
    else
      var last := items[|items| - 1];
      var rest := Remaining(items[..|items| - 1], peer, acked);
      if last.peer == peer && acked(last) then rest else rest + [last]
  }

  lemma {:induction false} RemainingExact(items: seq<Item>, peer: string, acked: Item -> bool, x: Item)
    ensures x in Remaining(items, peer, acked) <==> x in items && !(x.peer == peer && acked(x))
  {
    if items != [] {
      RemainingExact(items[..|items| - 1], peer, acked, x);
      assert items == items[..|items| - 1] + [items[|items| - 1]];
    }
  }

  class QueueFile {
    var items: seq<Item>

    constructor ()
      ensures items == []
    {
      items := [];
    }

    method Enqueue(item: Item)
      modifies this
      ensures items == old(items) + [item]
    {
      items := items + [item];
    }

    /** `acked` says which pushes the peer acknowledges. Undisturbed, the loop takes the
        steps below: a load, one step for each item, and a save. */
    method FlushToPeer(peer: string, acked: Item -> bool)
      modifies this
      ensures items == Remaining(old(items), peer, acked)
      ensures forall s: State, id: nat :: s.file == old(items) && id !in s.flushes ==> Flushes(s, id, peer, acked, items)
    {
      var loaded, remaining := items, [];
      for i := 0 to |loaded|
        invariant remaining == Remaining(loaded[..i], peer, acked)
      {
        var item := loaded[i];
        assert loaded[..i + 1][..i] == loaded[..i];
        if item.peer != peer {
          remaining := remaining + [item];
        } else if !acked(item) {
          remaining := remaining + [item];
        }
      }
      assert loaded[..|loaded|] == loaded;
      items := remaining;
      forall s: State, id: nat | s.file == loaded && id !in s.flushes ensures Flushes(s, id, peer, acked, items) {
        var states, steps := FlushIsSteps(s, id, peer, acked);
      }
    }
  }

  // ---- Any number of flushes and enqueues, interleaved ---------------------

  /** A flush between its load and its save: what it loaded, has yet to try, and will keep. */
  datatype Flush = Flush(peer: string, loaded: seq<Item>, todo: seq<Item>, kept: seq<Item>)

  /** `issued`, `acked` and `stored` record the past: items ever enqueued, pushes
      acknowledged to some flush, pushes written to the buddy's store. */
  datatype State = State(file: seq<Item>, flushes: map<nat, Flush>,
                         issued: set<Item>, acked: set<Item>, stored: set<(string, Push)>)

  datatype Step =
    | Enqueue(peer: string, push: Push)
    | Load(id: nat, peer: string)
    | Skip(id: nat)                    // the next item is for another peer
    | SendAcked(id: nat)
    | SendFailed(id: nat, arrived: bool)  // no acknowledgement, stored or not
    | Save(id: nat)

  ghost predicate Busy(s: State, id: nat) {
    id in s.flushes && s.flushes[id].todo != []
  }

  ghost predicate Next(s: State, step: Step, s': State) {
    match step
    case Enqueue(peer, push) =>
      var item := Item(|s.issued|, peer, push);
      s' == s.(file := s.file + [item], issued := s.issued + {item})
    case Load(id, peer) =>
      id !in s.flushes && s' == s.(flushes := s.flushes[id := Flush(peer, s.file, s.file, [])])
    case Skip(id) =>
      && Busy(s, id)
      && var f := s.flushes[id];
      && f.todo[0].peer != f.peer
      && s' == s.(flushes := s.flushes[id := f.(todo := f.todo[1..], kept := f.kept + [f.todo[0]])])
    case SendAcked(id) =>
      && Busy(s, id)
      && var f := s.flushes[id];
      && f.todo[0].peer == f.peer
      && s' == s.(flushes := s.flushes[id := f.(todo := f.todo[1..])], acked := s.acked + {f.todo[0]},
                  stored := s.stored + {(f.peer, f.todo[0].push)})
    case SendFailed(id, arrived) =>
      && Busy(s, id)
      && var f := s.flushes[id];
      && f.todo[0].peer == f.peer
      && s' == s.(flushes := s.flushes[id := f.(todo := f.todo[1..], kept := f.kept + [f.todo[0]])],
                  stored := if arrived then s.stored + {(f.peer, f.todo[0].push)} else s.stored)
    case Save(id) =>
      && id in s.flushes && s.flushes[id].todo == []
      && s' == s.(file := s.flushes[id].kept, flushes := s.flushes - {id})
  }

  ghost predicate IsRun(states: seq<State>, steps: seq<Step>) {
    && |states| == |steps| + 1 && states[0] == State([], map[], {}, {}, {})
    && forall i :: 0 <= i < |steps| ==> Next(states[i], steps[i], states[i + 1])
  }

  // ---- The code's flush takes these steps ----------------------------------

  /** A stretch of a run. */
  ghost predicate Stretch(states: seq<State>, steps: seq<Step>) {
    |states| == |steps| + 1 && forall i :: 0 <= i < |steps| ==> Next(states[i], steps[i], states[i + 1])
  }

  /** A load, a step for each item and a save lead from s to a file of `after`, with nothing
      issued and every other flush as it was. */
  ghost predicate Flushes(s: State, id: nat, peer: string, acked: Item -> bool, after: seq<Item>) {
    exists states, steps :: IsFlush(s, id, peer, acked, after, states, steps)
  }

  ghost predicate IsFlush(s: State, id: nat, peer: string, acked: Item -> bool, after: seq<Item>, states: seq<State>, steps: seq<Step>) {
    && Stretch(states, steps) && states[0] == s && |steps| == |s.file| + 2
    && steps[0] == Load(id, peer) && steps[|steps| - 1] == Save(id)
    && (forall k :: 0 <= k < |s.file| ==> steps[k + 1] == StepFor(s.file[k], id, peer, acked))
    && var end := states[|steps|]; end.file == after && end.flushes == s.flushes && end.issued == s.issued
  }

  function StepFor(x: Item, id: nat, peer: string, acked: Item -> bool): Step {
    if x.peer != peer then Skip(id) else if acked(x) then SendAcked(id) else SendFailed(id, false)
  }

  lemma {:induction false} RemainingCons(x: Item, rest: seq<Item>, peer: string, acked: Item -> bool)
    ensures Remaining([x] + rest, peer, acked) == (if x.peer == peer && acked(x) then [] else [x]) + Remaining(rest, peer, acked)
  {
    var all := [x] + rest;
    if rest == [] {
      assert all[..0] == [] && all[0] == x;
    } else {
      assert all[..|rest|] == [x] + rest[..|rest| - 1];
      RemainingCons(x, rest[..|rest| - 1], peer, acked);
    }
  }

  lemma ItemStep(s: State, id: nat, acked: Item -> bool) returns (s': State)
    requires Busy(s, id)
    ensures var f := s.flushes[id]; var x := f.todo[0];
      && Next(s, StepFor(x, id, f.peer, acked), s') && s'.file == s.file && s'.issued == s.issued
      && s'.flushes == s.flushes[id := f.(todo := f.todo[1..], kept := f.kept + if x.peer == f.peer && acked(x) then [] else [x])]
  {
    var f := s.flushes[id];
    var x := f.todo[0];
    var kept := s.(flushes := s.flushes[id := f.(todo := f.todo[1..], kept := f.kept + [x])]);
    if x.peer == f.peer && acked(x) {
      s' := s.(flushes := s.flushes[id := f.(todo := f.todo[1..])], acked := s.acked + {x}, stored := s.stored + {(f.peer, x.push)});
      assert f.kept + [] == f.kept;
    } else {
      s' := kept;
    }
  }

  lemma {:induction false} ItemSteps(s: State, id: nat, acked: Item -> bool) returns (states: seq<State>, steps: seq<Step>)
    requires id in s.flushes
    ensures Stretch(states, steps) && states[0] == s && |steps| == |s.flushes[id].todo|
    ensures forall k :: 0 <= k < |steps| ==> steps[k] == StepFor(s.flushes[id].todo[k], id, s.flushes[id].peer, acked)
    ensures var f, end := s.flushes[id], states[|steps|];
      && end.file == s.file && end.issued == s.issued
      && end.flushes == s.flushes[id := f.(todo := [], kept := f.kept + Remaining(f.todo, f.peer, acked))]
    decreases |s.flushes[id].todo|
  {
    hide Next, StepFor, Remaining;
    var f := s.flushes[id];
    NothingRemains(f.peer, acked);
    if f.todo == [] {
      states, steps := [s], [];
      assert f.kept + [] == f.kept;
    } else {
      var x, rest := f.todo[0], f.todo[1..];
      var s1 := ItemStep(s, id, acked);
      var more, moreSteps := ItemSteps(s1, id, acked);
      states, steps := [s] + more, [StepFor(x, id, f.peer, acked)] + moreSteps;
      RemainingCons(x, rest, f.peer, acked);
      assert f.todo == [x] + rest;
      var head := if x.peer == f.peer && acked(x) then [] else [x];
      assert (f.kept + head) + Remaining(rest, f.peer, acked) == f.kept + (head + Remaining(rest, f.peer, acked));
      StretchCons(s, StepFor(x, id, f.peer, acked), more, moreSteps);
    }
  }

  lemma NothingRemains(peer: string, acked: Item -> bool)
    ensures Remaining([], peer, acked) == []
  {
  }

  lemma StretchCons(s: State, step: Step, states: seq<State>, steps: seq<Step>)
    requires Stretch(states, steps) && Next(s, step, states[0])
    ensures Stretch([s] + states, [step] + steps)
  {
    hide Next;
  }

  lemma StretchSnoc(states: seq<State>, steps: seq<Step>, step: Step, s: State)
    requires Stretch(states, steps) && Next(states[|steps|], step, s)
    ensures Stretch(states + [s], steps + [step])
  {
    hide Next;
    var all, more := states + [s], steps + [step];
    forall i | 0 <= i < |more| ensures Next(all[i], more[i], all[i + 1]) {
      if i < |steps| {
        assert Next(states[i], steps[i], states[i + 1]);
      }
    }
  }

  lemma FlushIsSteps(s: State, id: nat, peer: string, acked: Item -> bool) returns (states: seq<State>, steps: seq<Step>)
    requires id !in s.flushes
    ensures IsFlush(s, id, peer, acked, Remaining(s.file, peer, acked), states, steps)
  {
    hide Remaining, StepFor;
    var loaded := s.(flushes := s.flushes[id := Flush(peer, s.file, s.file, [])]);
    assert Next(s, Load(id, peer), loaded);
    var mid, midSteps := ItemSteps(loaded, id, acked);
    var end := mid[|midSteps|];
    var saved := end.(file := end.flushes[id].kept, flushes := end.flushes - {id});
    assert Next(end, Save(id), saved);
    hide Next;
    StretchSnoc(mid, midSteps, Save(id), saved);
    StretchCons(s, Load(id, peer), mid + [saved], midSteps + [Save(id)]);
    states, steps := [s] + (mid + [saved]), [Load(id, peer)] + (midSteps + [Save(id)]);
    assert saved.flushes == s.flushes;
    assert [] + Remaining(s.file, peer, acked) == Remaining(s.file, peer, acked);
  }

  // ---- What every reachable state satisfies --------------------------------

  /** A flush has lost nothing it loaded, and holds nothing else. */
  ghost predicate FlushOk(s: State, f: Flush) {
    && (forall x :: x in f.loaded ==> x in f.todo || x in f.kept || x in s.acked)
    && (forall x :: x in f.todo || x in f.kept ==> x in f.loaded)
    && (forall x :: x in f.loaded ==> x in s.issued)
  }

  ghost predicate Reachable(s: State) {
    && (forall id :: id in s.flushes ==> FlushOk(s, s.flushes[id]))
    && (forall x :: x in s.file ==> x in s.issued)
    && (forall x :: x in s.acked ==> (x.peer, x.push) in s.stored)
    && (forall x :: x in s.issued ==> x.serial < |s.issued|)
  }

  lemma AdvanceKeepsFlush(s: State, s': State, f: Flush, f': Flush)
    requires FlushOk(s, f) && f.todo != [] && s.acked <= s'.acked && s.issued == s'.issued
    requires f'.loaded == f.loaded && f'.todo == f.todo[1..]
    requires f'.kept == f.kept + [f.todo[0]] || (f'.kept == f.kept && f.todo[0] in s'.acked)
    ensures FlushOk(s', f')
  {
    assert f.todo == [f.todo[0]] + f.todo[1..];
  }

  lemma OthersKeepFlush(s: State, s': State, f: Flush)
    requires FlushOk(s, f) && s.acked <= s'.acked && s.issued <= s'.issued
    ensures FlushOk(s', f)
  {
  }

  lemma StepKeepsFlushes(s: State, step: Step, s': State)
    requires Reachable(s) && Next(s, step, s')
    ensures forall id :: id in s'.flushes ==> FlushOk(s', s'.flushes[id])
  {
    forall id | id in s'.flushes ensures FlushOk(s', s'.flushes[id]) {
      if id in s.flushes && s'.flushes[id] == s.flushes[id] {
        OthersKeepFlush(s, s', s.flushes[id]);
      } else if id in s.flushes {
        AdvanceKeepsFlush(s, s', s.flushes[id], s'.flushes[id]);
      }
    }
  }

  lemma StepKeepsReachable(s: State, step: Step, s': State)
    requires Reachable(s) && Next(s, step, s')
    ensures Reachable(s')
  {
    StepKeepsFlushes(s, step, s');
    if step.Enqueue? {
      var item := Item(|s.issued|, step.peer, step.push);
      assert item !in s.issued;
    } else if step.Save? {
      assert FlushOk(s, s.flushes[step.id]);
    }
  }

  lemma {:induction false} RunsAreReachable(states: seq<State>, steps: seq<Step>, i: nat)
    requires IsRun(states, steps) && i < |states|
    ensures Reachable(states[i])
  {
    if i > 0 {
      RunsAreReachable(states, steps, i - 1);
      assert Next(states[i - 1], steps[i - 1], states[i]);
      StepKeepsReachable(states[i - 1], steps[i - 1], states[i]);
    }
  }

  // ---- Nothing is lost -----------------------------------------------------

  /** Every item ever enqueued is in the file, or acknowledged and so stored at its peer. */
  ghost predicate NothingLost(s: State) {
    forall x :: x in s.issued ==> x in s.file || (x in s.acked && (x.peer, x.push) in s.stored)
  }

  /** Every item this flush did not load has been acknowledged to another one. */
  ghost predicate SafeToSave(s: State, id: nat) {
    id in s.flushes && forall x :: x in s.issued && x !in s.flushes[id].loaded ==> x in s.acked
  }

  /** A save loses nothing if and only if it is safe; no other step ever loses anything. */
  lemma StepLosesNothingIff(s: State, step: Step, s': State)
    requires Reachable(s) && Next(s, step, s')
    ensures step.Save? ==> (NothingLost(s') <==> SafeToSave(s, step.id))
    ensures !step.Save? && NothingLost(s) ==> NothingLost(s')
  {
    if step.Save? {
      var f := s.flushes[step.id];
      assert FlushOk(s, f) && s'.file == f.kept;
      if NothingLost(s') {
        forall x | x in s.issued && x !in f.loaded ensures x in s.acked {
          assert x !in f.kept;
        }
      }
    }
  }

  /** A whole run loses nothing at any point if and only if each of its saves is safe. */
  lemma RunLosesNothingIff(states: seq<State>, steps: seq<Step>)
    requires IsRun(states, steps)
    ensures (forall i :: 0 <= i < |states| ==> NothingLost(states[i])) <==>
            (forall i :: 0 <= i < |steps| && steps[i].Save? ==> SafeToSave(states[i], steps[i].id))
  {
    if forall i :: 0 <= i < |states| ==> NothingLost(states[i]) {
      forall i | 0 <= i < |steps| && steps[i].Save? ensures SafeToSave(states[i], steps[i].id) {
        RunsAreReachable(states, steps, i);
        assert Next(states[i], steps[i], states[i + 1]) && NothingLost(states[i + 1]);
        StepLosesNothingIff(states[i], steps[i], states[i + 1]);
      }
    }
    if forall i :: 0 <= i < |steps| && steps[i].Save? ==> SafeToSave(states[i], steps[i].id) {
      forall i | 0 <= i < |states| ensures NothingLost(states[i]) {
        SafeRunPrefix(states, steps, i);
      }
    }
  }

  lemma {:induction false} SafeRunPrefix(states: seq<State>, steps: seq<Step>, i: nat)
    requires IsRun(states, steps) && i < |states|
    requires forall j :: 0 <= j < |steps| && steps[j].Save? ==> SafeToSave(states[j], steps[j].id)
    ensures NothingLost(states[i])
  {
    if i > 0 {
      SafeRunPrefix(states, steps, i - 1);
      RunsAreReachable(states, steps, i - 1);
      assert Next(states[i - 1], steps[i - 1], states[i]);
      StepLosesNothingIff(states[i - 1], steps[i - 1], states[i]);
    }
  }

  /** No Enqueue falls between a flush's load and its save. */
  ghost predicate NoEnqueueDuringFlush(states: seq<State>, steps: seq<Step>) {
    |states| == |steps| + 1 && forall i :: 0 <= i < |steps| && steps[i].Enqueue? ==> states[i].flushes == map[]
  }

  ghost predicate AllSafe(s: State) {
    forall id :: id in s.flushes ==> SafeToSave(s, id)
  }

  lemma QuietStep(s: State, step: Step, s': State)
    requires Reachable(s) && Next(s, step, s') && NothingLost(s) && AllSafe(s)
    requires step.Enqueue? ==> s.flushes == map[]
    ensures NothingLost(s') && AllSafe(s')
  {
    StepLosesNothingIff(s, step, s');
    forall id | id in s'.flushes ensures SafeToSave(s', id) {
      if id in s.flushes {
        assert SafeToSave(s, id);
      }
    }
  }

  /** Then every active flush loaded all that was not yet acknowledged. */
  lemma {:induction false} QuietRunIsSafe(states: seq<State>, steps: seq<Step>, i: nat)
    requires IsRun(states, steps) && NoEnqueueDuringFlush(states, steps) && i < |states|
    ensures NothingLost(states[i]) && AllSafe(states[i])
  {
    hide Next;
    if i > 0 {
      QuietRunIsSafe(states, steps, i - 1);
      RunsAreReachable(states, steps, i - 1);
      assert Next(states[i - 1], steps[i - 1], states[i]);
      hide *;
      QuietStep(states[i - 1], steps[i - 1], states[i]);
    }
  }

  /** With any number of flushes at once and no Enqueue during one, nothing is ever lost. */
  lemma QuietRunsLoseNothing(states: seq<State>, steps: seq<Step>, i: nat)
    requires IsRun(states, steps) && NoEnqueueDuringFlush(states, steps) && i < |states|
    ensures NothingLost(states[i])
  {
    QuietRunIsSafe(states, steps, i);
  }

  /** The condition is needed: an Enqueue during a flush to an empty queue is overwritten. */
  lemma EnqueueDuringFlushIsLost(peer: string, push: Push) returns (states: seq<State>, steps: seq<Step>)
    ensures IsRun(states, steps) && steps == [Load(0, peer), Enqueue(peer, push), Save(0)]
    ensures var last := states[3];
      Item(0, peer, push) in last.issued && last.file == [] && last.acked == {} && last.stored == {}
  {
    var empty := State([], map[], {}, {}, {});
    var loaded := empty.(flushes := map[0 := Flush(peer, [], [], [])]);
    var item := Item(0, peer, push);
    var queued := loaded.(file := [item], issued := {item});
    var saved := queued.(file := [], flushes := map[]);
    steps := [Load(0, peer), Enqueue(peer, push), Save(0)];
    states := [empty, loaded, queued, saved];
    assert Next(empty, steps[0], loaded);
    assert loaded.file + [item] == [item] && loaded.issued + {item} == {item};
    assert Next(loaded, steps[1], queued);
    assert queued.flushes - {0} == map[];
    assert Next(queued, steps[2], saved);
  }
}
