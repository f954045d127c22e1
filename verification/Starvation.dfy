/** A run of kernel calls after which a READY process is never scheduled again. MAX_PROCESSES is declared
    but enforced nowhere, so nothing keeps a caller from making it. */
module Starvation {
  import opened SchedModel
  import opened SchedTheorems

  /** The ring scheduler_init leaves: the idle process alone. */
  function Booted(): Sched<nat> {
    Sched([Pcb(0, Running, 0)], 0, 0)
  }

  /** Who stands at position i once k processes have been added: idle first, then the latest first. */
  function IdAt(k: nat, i: nat): int {
    if i == 0 then 0 else k + 1 - i
  }

  ghost predicate Reached(ops: seq<Op<nat>>, t: Sched<nat>) {
    Legal(Booted(), ops) && Run(Booted(), ops) == t
  }

  lemma {:induction false} Extends<T>(s: Sched<T>, ops: seq<Op<T>>, op: Op<T>)
    requires Inv(s) && Legal(s, ops) && Enabled(Run(s, ops), op)
    ensures Legal(s, ops + [op]) && Run(s, ops + [op]) == Step(Run(s, ops), op)
    decreases |ops|
  {
    StepKeepsInv(Run(s, ops), op);
    if ops == [] {
      assert [op][1..] == [];
    } else {
      StepKeepsInv(s, ops[0]);
      Extends(Step(s, ops[0]), ops[1..], op);
      assert (ops + [op])[1..] == ops[1..] + [op];
    }
  }

  /** k processes added, idle running. */
  ghost predicate Filled(s: Sched<nat>, k: nat) {
    && |s.ring| == k + 1 && s.c == 0
    && forall i | 0 <= i <= k :: s.ring[i].id == IdAt(k, i) && s.ring[i].state == if i == 0 then Running else Ready
  }

  /** The first z of the k added processes have run and exited; the next one runs, idle waits, or idle
      runs again when all have exited. */
  ghost predicate Drained(s: Sched<nat>, k: nat, z: nat) {
    && z <= k && |s.ring| == k + 1 && s.c == (if z == k then 0 else z + 1)
    && forall i | 0 <= i <= k ::
         && s.ring[i].id == IdAt(k, i)
         && s.ring[i].state == if i == s.c then Running else if 1 <= i <= z then Zombie else Ready
  }

  /** One process runs, idle is READY, and everyone from the one to the other has exited. */
  ghost predicate Crowded(s: Sched<nat>, k: nat) {
    && |s.ring| == k + 2 && s.c == 1
    && forall i | 0 <= i < k + 2 :: s.ring[i].state == if i == 0 then Ready else if i == 1 then Running else Zombie
  }

  lemma {:induction false} Fill(k: nat) returns (ops: seq<Op<nat>>, t: Sched<nat>)
    ensures Reached(ops, t) && Filled(t, k)
  {
    if k == 0 { return [], Booted(); }
    ops, t := Fill(k - 1);
    Extends(Booted(), ops, AddOp(k, 0));
    ops, t := ops + [AddOp(k, 0)], Step(t, AddOp(k, 0));
  }

  /** The next process is READY: a tick takes it. */
  lemma TickTakesNext(s: Sched<nat>)
    requires s.c < |s.ring| && |s.ring| > 1 && ReadyAt(s, 1)
    ensures Tick(s) == SwitchTo(s, 1)
  {
    assert FirstReady(s, 1) == 1;
  }

  lemma ExitDrains(s: Sched<nat>, k: nat, z: nat)
    requires z < k && Drained(s, k, z)
    ensures Inv(s) && Drained(Step(s, ExitOp), k, z + 1)
  {
    TickTakesNext(s.(ring := s.ring[s.c := s.ring[s.c].(state := Zombie)]));
  }

  lemma {:induction false} Drain(k: nat, z: nat) returns (ops: seq<Op<nat>>, t: Sched<nat>)
    requires z <= k && 0 < k
    ensures Reached(ops, t) && Drained(t, k, z)
  {
    if z == 0 {
      ops, t := Fill(k);
      Extends(Booted(), ops, TickOp);
      TickTakesNext(t);
      ops, t := ops + [TickOp], Step(t, TickOp);
    } else {
      ops, t := Drain(k, z - 1);
      Extends(Booted(), ops, ExitOp);
      ExitDrains(t, k, z - 1);
      ops, t := ops + [ExitOp], Step(t, ExitOp);
    }
  }

  lemma AddCrowds(s: Sched<nat>, k: nat)
    requires 0 < k && Drained(s, k, k)
    ensures Inv(s) && Enabled(s, AddOp(k + 1, 0)) && Crowded(Tick(Add(s, k + 1, 0)), k)
  {
    TickTakesNext(Add(s, k + 1, 0));
  }

  lemma CrowdedIsFar(s: Sched<nat>, k: nat)
    requires Crowded(s, k) && k >= 65
    ensures FirstReady(s, 1) == k + 1
  {
    assert forall j | 1 <= j < k + 1 :: !ReadyAt(s, j);
    assert ReadyAt(s, k + 1);
  }

  /** For every k from 65 on: add k processes, let each run and exit, add one more and tick. Idle is then
      READY, and no number of ticks ever makes it current again. */
  lemma ReadyProcessStarves(k: nat) returns (ops: seq<Op<nat>>)
    requires k >= 65
    ensures Legal(Booted(), ops)
    ensures var t := Run(Booted(), ops);
            && t.ring[0].id == 0 && t.ring[0].state == Ready && t.c != 0
            && forall n: nat :: Ticks(t, n) == t
  {
    var t;
    ops, t := Drain(k, k);
    AddCrowds(t, k);
    Extends(Booted(), ops, AddOp(k + 1, 0));
    ops, t := ops + [AddOp(k + 1, 0)], Step(t, AddOp(k + 1, 0));
    Extends(Booted(), ops, TickOp);
    ops, t := ops + [TickOp], Step(t, TickOp);
    CrowdedIsFar(t, k);
    forall n: nat ensures Ticks(t, n) == t { FarReadyIsMissed(t, n); }
  }
}
