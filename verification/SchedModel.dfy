/** The run queue of kernel/proc/scheduler.c as a ring of processes listed from its head, and runs of
    ticks, additions, removals and exits over it. */
module SchedModel {
  datatype ProcState = Ready | Running | Blocked | Zombie

  /** One process: its identity, its state, the top of its kernel stack. */
  datatype Pcb<T> = Pcb(id: T, state: ProcState, top: nat)

  /** `ring[0]` is run_queue, `ring[c]` is current, esp0 is the field of the TSS. */
  datatype Sched<T> = Sched(ring: seq<Pcb<T>>, c: nat, esp0: nat)

  const SEARCH_STEPS: nat := 64

  // ---- positions on a ring of n ---------------------------------------------------------------

  /** The position k places after c. */
  function Pos(n: nat, c: nat, k: nat): (j: nat)
    requires c < n && k <= n
    ensures j < n
  {
    if c + k < n then c + k else c + k - n
  }

  /** How many places j comes after c. */
  function Dist(n: nat, c: nat, j: nat): (k: nat)
    requires c < n && j < n
    ensures k < n && Pos(n, c, k) == j
  {
    if c <= j then j - c else j + n - c
  }

  ghost predicate Distinct<T>(ring: seq<Pcb<T>>) {
    forall i, j | 0 <= i < j < |ring| :: ring[i].id != ring[j].id
  }

  /** Distinct processes, current among them; only current is RUNNING, and it is RUNNING or has exited. */
  ghost predicate Inv<T>(s: Sched<T>) {
    && s.c < |s.ring| && Distinct(s.ring)
    && (forall i | 0 <= i < |s.ring| && s.ring[i].state == Running :: i == s.c)
    && (s.ring[s.c].state == Running || s.ring[s.c].state == Zombie)
  }

  // ---- the operations -------------------------------------------------------------------------

  /** scheduler_add on a non-empty queue: behind the head. */
  function Insert<T>(ring: seq<Pcb<T>>, p: Pcb<T>): seq<Pcb<T>> {
    if ring == [] then [p] else [ring[0], p] + ring[1..]
  }

  function Add<T>(s: Sched<T>, id: T, top: nat): Sched<T> {
    Sched(Insert(s.ring, Pcb(id, Ready, top)), if s.c == 0 then 0 else s.c + 1, s.esp0)
  }

  /** scheduler_remove of the process at position i. */
  function Remove<T>(s: Sched<T>, i: nat): Sched<T>
    requires i < |s.ring|
  {
    Sched(s.ring[..i] + s.ring[i + 1..], if i < s.c then s.c - 1 else s.c, s.esp0)
  }

  predicate ReadyAt<T>(s: Sched<T>, k: nat)
    requires s.c < |s.ring| && k <= |s.ring|
  {
    s.ring[Pos(|s.ring|, s.c, k)].state == Ready
  }

  /** The least distance from k on at which a READY process stands, or the ring size. */
  function FirstReady<T>(s: Sched<T>, k: nat): (r: nat)
    requires s.c < |s.ring| && k <= |s.ring|
    ensures k <= r <= |s.ring| && (r < |s.ring| ==> ReadyAt(s, r))
    ensures forall j | k <= j < r :: !ReadyAt(s, j)
    decreases |s.ring| - k
  {
    if k == |s.ring| || ReadyAt(s, k) then k else FirstReady(s, k + 1)
  }

  /** What the bounded search of scheduler_tick settles on: a distance, or 0 for "stay". */
  function Chosen<T>(s: Sched<T>): (k: nat)
    requires s.c < |s.ring|
    ensures k < |s.ring|
  {
    var k := FirstReady(s, 1);
    if k == |s.ring| || k > SEARCH_STEPS + 1 then 0 else k
  }

  /** The process at position c, if it is RUNNING, becomes READY, and the one at position j RUNNING. */
  function HandOver<T>(ring: seq<Pcb<T>>, c: nat, j: nat): seq<Pcb<T>>
    requires c < |ring| && j < |ring|
  {
    var r := if ring[c].state == Running then ring[c := ring[c].(state := Ready)] else ring;
    r[j := r[j].(state := Running)]
  }

  function SwitchTo<T>(s: Sched<T>, k: nat): Sched<T>
    requires s.c < |s.ring| && k < |s.ring|
  {
    var j := Pos(|s.ring|, s.c, k);
    Sched(HandOver(s.ring, s.c, j), j, s.ring[j].top)
  }

  function Tick<T>(s: Sched<T>): Sched<T>
    requires s.c < |s.ring|
  {
    if Chosen(s) == 0 then s else SwitchTo(s, Chosen(s))
  }

  /** sys_exit: current becomes a ZOMBIE, then a tick. */
  function Exit<T>(s: Sched<T>): Sched<T>
    requires s.c < |s.ring|
  {
    Tick(s.(ring := s.ring[s.c := s.ring[s.c].(state := Zombie)]))
  }

  // ---- steps and runs ---------------------------------------------------------------------------

  datatype Op<T> = AddOp(id: T, top: nat) | RemoveOp(i: nat) | TickOp | ExitOp

  ghost predicate Enabled<T>(s: Sched<T>, op: Op<T>) {
    match op
    case AddOp(id, top) => forall i | 0 <= i < |s.ring| :: s.ring[i].id != id
    case RemoveOp(i) => i < |s.ring| && i != s.c
    case _ => true
  }

  ghost function Step<T>(s: Sched<T>, op: Op<T>): Sched<T>
    requires Inv(s) && Enabled(s, op)
  {
    match op
    case AddOp(id, top) => Add(s, id, top)
    case RemoveOp(i) => Remove(s, i)
    case TickOp => Tick(s)
    case ExitOp => Exit(s)
  }

  lemma TickKeepsInv<T>(s: Sched<T>)
    requires Inv(s)
    ensures Inv(Tick(s))
  {
  }

  lemma AddKeepsInv<T>(s: Sched<T>, id: T, top: nat)
    requires Inv(s) && forall i | 0 <= i < |s.ring| :: s.ring[i].id != id
    ensures Inv(Add(s, id, top))
  {
  }

  lemma RemoveKeepsInv<T>(s: Sched<T>, i: nat)
    requires Inv(s) && i < |s.ring| && i != s.c
    ensures Inv(Remove(s, i))
  {
  }

  lemma StepKeepsInv<T>(s: Sched<T>, op: Op<T>)
    requires Inv(s) && Enabled(s, op)
    ensures Inv(Step(s, op))
  {
    match op
    case AddOp(id, top) => AddKeepsInv(s, id, top);
    case RemoveOp(i) => RemoveKeepsInv(s, i);
    case TickOp => TickKeepsInv(s);
    case ExitOp => TickKeepsInv(s.(ring := s.ring[s.c := s.ring[s.c].(state := Zombie)]));
  }

  ghost predicate Legal<T>(s: Sched<T>, ops: seq<Op<T>>)
    requires Inv(s)
    decreases |ops|
  {
    ops == [] || (Enabled(s, ops[0]) && (StepKeepsInv(s, ops[0]); Legal(Step(s, ops[0]), ops[1..])))
  }

  ghost function Run<T>(s: Sched<T>, ops: seq<Op<T>>): (t: Sched<T>)
    requires Inv(s) && Legal(s, ops)
    ensures Inv(t)
    decreases |ops|
  {
    if ops == [] then s else
      StepKeepsInv(s, ops[0]);
      Run(Step(s, ops[0]), ops[1..])
  }

  lemma {:induction false} RunInTwo<T>(s: Sched<T>, xs: seq<Op<T>>, ys: seq<Op<T>>)
    requires Inv(s) && Legal(s, xs + ys)
    ensures Legal(s, xs) && Legal(Run(s, xs), ys) && Run(s, xs + ys) == Run(Run(s, xs), ys)
    decreases |xs|
  {
    if xs == [] {
      assert xs + ys == ys;
    } else {
      StepKeepsInv(s, xs[0]);
      assert (xs + ys)[1..] == xs[1..] + ys;
      RunInTwo(Step(s, xs[0]), xs[1..], ys);
    }
  }
}
