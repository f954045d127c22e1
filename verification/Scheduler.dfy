/** kernel/proc/scheduler.c itself: a circular singly-linked list of PCBs, changed in place. */
module Scheduler {
  import opened Words
  import opened SchedModel
  import opened SchedTheorems

  class Proc {
    var pid: u32
    var state: ProcState
    var exitCode: int
    var next: Proc?
    const top: nat

    constructor (pid: u32, top: nat)
      ensures this.pid == pid && state == Ready && next == null && this.top == top
    {
      this.pid := pid;
      this.top := top;
      state := Ready;
      exitCode := 0;
      next := null;
    }
  }

  // ---- rings of objects -------------------------------------------------------------------------

  /** The position after i on a ring of n. */
  function Succ(i: nat, n: nat): (j: nat)
    requires i < n
    ensures j < n
  {
    if i + 1 == n then 0 else i + 1
  }

  ghost predicate Simple(r: seq<Proc>) {
    forall i, j | 0 <= i < j < |r| :: r[i] != r[j]
  }

  /** Following `next` visits r[0], r[1], ... and comes back to r[0]. */
  ghost predicate Cycle(r: seq<Proc>)
    reads r
  {
    forall i | 0 <= i < |r| :: r[i].next == r[Succ(i, |r|)]
  }

  ghost function View(r: seq<Proc>): (v: seq<Pcb<Proc>>)
    reads r
    ensures |v| == |r| && forall i | 0 <= i < |r| :: v[i] == Pcb(r[i], r[i].state, r[i].top)
  {
    seq(|r|, i requires 0 <= i < |r| reads r => Pcb(r[i], r[i].state, r[i].top))
  }

  ghost function Linked(r: seq<Proc>, p: Proc): seq<Proc>
    requires r != []
  {
    [r[0], p] + r[1..]
  }

  ghost function Without(r: seq<Proc>, k: nat): (w: seq<Proc>)
    requires k < |r|
    ensures |w| == |r| - 1 && forall j | 0 <= j < |w| :: w[j] == r[if j < k then j else j + 1]
  {
    r[..k] + r[k + 1..]
  }

  lemma LinkedSimple(r: seq<Proc>, p: Proc)
    requires r != [] && Simple(r) && p !in r
    ensures Simple(Linked(r, p))
  {
  }

  lemma WithoutAt(r: seq<Proc>, k: nat, x: nat)
    requires k < |r| && x < |r| && x != k
    ensures var j := if k < x then x - 1 else x; j < |Without(r, k)| && Without(r, k)[j] == r[x]
  {
  }

  lemma WithoutSimple(r: seq<Proc>, k: nat)
    requires k < |r| && Simple(r)
    ensures Simple(Without(r, k)) && r[k] !in Without(r, k)
  {
  }

  lemma LinkedCycle(r: seq<Proc>, p: Proc)
    requires r != [] && r[0].next == p && p.next == r[Succ(0, |r|)]
    requires forall i | 1 <= i < |r| :: r[i].next == r[Succ(i, |r|)]
    ensures Cycle(Linked(r, p))
  {
    var w := Linked(r, p);
    forall i | 0 <= i < |w| ensures w[i].next == w[Succ(i, |w|)] {
      if i >= 2 { assert w[i] == r[i - 1]; }
    }
  }

  /** Where position j of the shortened ring was, and that its successor is the old successor, but for
      the removed position, which is skipped. */
  lemma WithoutSucc(n: nat, k: nat, i: nat, j: nat)
    requires i < n && k == Succ(i, n) && j < n - 1
    ensures var o := if j < k then j else j + 1;
            var t := Succ(j, n - 1);
            && o < n && o != k
            && (if t < k then t else t + 1) == if o == i then Succ(k, n) else Succ(o, n)
  {
  }

  lemma WithoutCycle(r: seq<Proc>, k: nat, i: nat)
    requires i < |r| && k == Succ(i, |r|) && (|r| > 1 ==> r[i].next == r[Succ(k, |r|)])
    requires forall j | 0 <= j < |r| && j != i && j != k :: r[j].next == r[Succ(j, |r|)]
    ensures Cycle(Without(r, k))
  {
    var w, n := Without(r, k), |r|;
    forall j | 0 <= j < |w| ensures w[j].next == w[Succ(j, |w|)] {
      WithoutSucc(n, k, i, j);
      assert w[j] == r[if j < k then j else j + 1];
    }
  }

  lemma SameView(r: seq<Proc>, v: seq<Pcb<Proc>>)
    requires |v| == |r| && forall i | 0 <= i < |r| :: v[i] == Pcb(r[i], r[i].state, r[i].top)
    ensures View(r) == v
  {
  }

  lemma LinkedView(r: seq<Proc>, p: Proc)
    requires r != [] && p.state == Ready
    ensures View(Linked(r, p)) == Insert(View(r), Pcb(p, Ready, p.top))
  {
    var v, w := View(Linked(r, p)), Insert(View(r), Pcb(p, Ready, p.top));
    forall i | 0 <= i < |v| ensures v[i] == w[i] {
      if i >= 2 { assert Linked(r, p)[i] == r[i - 1]; }
    }
  }

  lemma WithoutView(r: seq<Proc>, k: nat)
    requires k < |r|
    ensures View(Without(r, k)) == View(r)[..k] + View(r)[k + 1..]
  {
    var v, w := View(Without(r, k)), View(r)[..k] + View(r)[k + 1..];
    forall i | 0 <= i < |v| ensures v[i] == w[i] {
      assert Without(r, k)[i] == r[if i < k then i else i + 1];
    }
  }

  /** Once position k is unlinked, what is left is a simple cycle with the same PCBs but one. */
  lemma Shortened(r: seq<Proc>, k: nat, i: nat, v: seq<Pcb<Proc>>)
    requires Simple(r) && i < |r| && k == Succ(i, |r|) && (|r| > 1 ==> r[i].next == r[Succ(k, |r|)])
    requires forall j | 0 <= j < |r| && j != i && j != k :: r[j].next == r[Succ(j, |r|)]
    requires |v| == |r| && forall j | 0 <= j < |r| :: v[j] == Pcb(r[j], r[j].state, r[j].top)
    ensures Simple(Without(r, k)) && Cycle(Without(r, k)) && View(Without(r, k)) == v[..k] + v[k + 1..]
    ensures |Without(r, k)| == |r| - 1 && (|r| > 1 ==> Without(r, k)[0] == r[if k == 0 then 1 else 0])
  {
    SameView(r, v);
    WithoutSimple(r, k);
    WithoutCycle(r, k, i);
    WithoutView(r, k);
  }

  // ---- the scheduler ----------------------------------------------------------------------------

  class Scheduler {
    var current: Proc?
    var runQueue: Proc?
    var esp0: nat
    ghost var ring: seq<Proc>
    ghost var c: nat

    /** The `next` pointers form one simple cycle through `ring`, entered at runQueue, that contains
        current. */
    ghost predicate Valid()
      reads this, ring
    {
      && Simple(ring) && Cycle(ring)
      && runQueue == (if ring == [] then null else ring[0])
      && (current != null ==> c < |ring| && ring[c] == current)
      && (current == null ==> c == 0)
    }

    ghost function State(): Sched<Proc>
      reads this, ring
    {
      Sched(View(ring), c, esp0)
    }

    constructor ()
      ensures Valid() && ring == [] && current == null
    {
      current, runQueue, esp0 := null, null, 0;
      ring, c := [], 0;
    }

    /** scheduler_add */
    method Add(p: Proc?)
      requires Valid() && (p != null ==> p !in ring)
      modifies this, ring, p
      ensures Valid() && current == old(current) && (p != null ==> p.pid == old(p.pid))
      ensures p == null ==> State() == old(State())
      ensures p != null ==> State() == SchedModel.Add(old(State()), p, p.top)
    {
      if p == null { return; }
      p.state := Ready;
      if runQueue == null {
        runQueue := p;
        p.next := p;
        ring := [p];
        assert View(ring) == Insert(old(View(ring)), Pcb(p, Ready, p.top));
      } else {
        LinkAfterHead(p);
      }
    }

    method LinkAfterHead(p: Proc)
      requires Valid() && p !in ring && ring != [] && p.state == Ready
      modifies this`ring, this`c, ring`next, p`next
      ensures Valid() && State() == SchedModel.Add(old(State()), p, p.top)
    {
      ghost var r, v := ring, View(ring);
      ghost var goal := SchedModel.Add(State(), p, p.top);
      assert goal.ring == Insert(v, Pcb(p, Ready, p.top));
      p.next := runQueue.next;
      runQueue.next := p;
      LinkedSimple(r, p);
      LinkedCycle(r, p);
      SameView(r, v);
      LinkedView(r, p);
      ghost var w := Linked(r, p);
      assert View(w) == goal.ring;
      Relist(w, goal.c);
    }

    /** The predecessor search of scheduler_remove: it stops, at the process before p if p is in the
        ring, and at the last one otherwise. */
    method Predecessor(p: Proc) returns (prev: Proc, ghost i: nat)
      requires Valid() && ring != []
      ensures i < |ring| && prev == ring[i]
      ensures if p in ring then ring[Succ(i, |ring|)] == p else prev.next != p
    {
      prev := runQueue;
      i := 0;
      while prev.next != p && prev.next != runQueue
        invariant i < |ring| && prev == ring[i]
        invariant forall j | 0 < j <= i :: ring[j] != p
        decreases |ring| - i
      {
        prev := prev.next;
        i := i + 1;
      }
      if prev.next != p {
        assert i + 1 == |ring|;
        assert forall j | 0 <= j < |ring| :: ring[j] != p;
      }
    }

    /** scheduler_remove */
    method Remove(p: Proc?)
      requires Valid() && (p == null || p != current)
      modifies this, ring
      ensures Valid() && current == old(current)
      ensures p == null || p !in old(ring) ==> State() == old(State())
      ensures p != null && p in old(ring) ==>
                exists i | 0 <= i < |old(ring)| :: old(ring)[i] == p && State() == SchedModel.Remove(old(State()), i)
    {
      if p == null || runQueue == null { return; }
      var prev, i := Predecessor(p);
      if prev.next != p { return; }
      Unlink(p, prev, i, Succ(i, |ring|));
    }

    /** The stores of scheduler_remove once the predecessor is known. */
    method Detach(p: Proc, prev: Proc, ghost r: seq<Proc>, ghost i: nat, ghost k: nat)
      requires Simple(r) && Cycle(r) && i < |r| && prev == r[i] && k == Succ(i, |r|) && r[k] == p
      requires runQueue == r[0]
      modifies this`runQueue, r`next
      ensures runQueue == if |r| == 1 then null else r[if k == 0 then 1 else 0]
      ensures |r| > 1 ==> r[i].next == r[Succ(k, |r|)]
      ensures forall j | 0 <= j < |r| && j != i && j != k :: r[j].next == r[Succ(j, |r|)]
    {
      assert p.next == r[Succ(k, |r|)];
      if p.next == p {
        runQueue := null;
      } else {
        prev.next := p.next;
        if runQueue == p { runQueue := p.next; }
      }
      p.next := null;
    }

    /** Without its k-th process the ring is a simple cycle again, with the other PCBs unchanged. */
    method Cut(p: Proc, prev: Proc, ghost r: seq<Proc>, ghost i: nat, ghost k: nat)
      requires Simple(r) && Cycle(r) && i < |r| && prev == r[i] && k == Succ(i, |r|) && r[k] == p
      requires runQueue == r[0]
      modifies this`runQueue, r`next
      ensures var w := Without(r, k);
              && Simple(w) && Cycle(w) && runQueue == (if w == [] then null else w[0])
              && View(w) == old(View(r))[..k] + old(View(r))[k + 1..]
    {
      ghost var v := View(r);
      Detach(p, prev, r, i, k);
      Shortened(r, k, i, v);
    }

    method Unlink(p: Proc, prev: Proc, ghost i: nat, ghost k: nat)
      requires Valid() && p != current
      requires i < |ring| && prev == ring[i] && k == Succ(i, |ring|) && ring[k] == p
      modifies this`runQueue, this`ring, this`c, ring`next
      ensures Valid() && old(ring)[k] == p && State() == SchedModel.Remove(old(State()), k)
    {
      ghost var r, x := ring, SchedModel.Remove(State(), k).c;
      Cut(p, prev, r, i, k);
      if current != null { WithoutAt(r, k, c); }
      Relist(Without(r, k), x);
    }

    /** The ghost update that goes with a change of the links. */
    ghost method Relist(w: seq<Proc>, x: nat)
      requires Simple(w) && Cycle(w) && runQueue == (if w == [] then null else w[0])
      requires (current != null ==> x < |w| && w[x] == current) && (current == null ==> x == 0)
      modifies this`ring, this`c
      ensures Valid() && State() == Sched(old(View(w)), x, esp0) && ring == w
    {
      ring := w;
      c := x;
    }

    /** scheduler_init, given the idle process: it is alone in the ring, current and RUNNING. */
    method Init(idle: Proc)
      requires Valid() && ring == [] && current == null
      modifies this, idle
      ensures Valid() && State() == Sched([Pcb(idle, Running, idle.top)], 0, old(esp0)) && Inv(State())
      ensures current == idle && idle.pid == 0
    {
      idle.pid := 0;
      Add(idle);
      current := idle;
      current.state := Running;
      assert View(ring) == [Pcb(idle, Running, idle.top)];
    }

    /** The bounded search of scheduler_tick: the process at distance d from current, where d is the
        first READY distance or, if that is further, the last one looked at. */
    method Search() returns (next: Proc, ghost d: nat)
      requires Valid() && current != null
      ensures 1 <= d <= |ring| && next == ring[Pos(|ring|, c, d)]
      ensures d == if FirstReady(State(), 1) <= SEARCH_STEPS + 1 then FirstReady(State(), 1) else SEARCH_STEPS + 1
    {
      next := current.next;
      d := 1;
      var steps := 0;
      while steps < SEARCH_STEPS && next.state != Ready && next != current
        invariant d == steps + 1 <= SEARCH_STEPS + 1 && d <= |ring| && next == ring[Pos(|ring|, c, d)]
        invariant forall j | 1 <= j < d :: !ReadyAt(State(), j)
        decreases SEARCH_STEPS - steps
      {
        next := next.next;
        steps := steps + 1;
        d := d + 1;
      }
      FirstReadyIs(State(), d);
    }

    /** scheduler_tick */
    method Tick()
      requires Valid()
      modifies this`current, this`c, this`esp0, ring`state
      ensures Valid() && ring == old(ring)
      ensures State() == if old(current) == null then old(State()) else SchedModel.Tick(old(State()))
      ensures (current == null) == (old(current) == null)
    {
      if runQueue == null || current == null { return; }
      ghost var s := State();
      var next, d := Search();
      ChosenIs(s, d);
      if next == current { return; }
      if next.state != Ready { return; }
      GiveCpuTo(next, d);
    }

    /** The state changes of scheduler_tick once a process is chosen, up to the context switch. */
    method GiveCpuTo(next: Proc, ghost d: nat)
      requires Valid() && current != null && 1 <= d < |ring| && next == ring[Pos(|ring|, c, d)]
      modifies this`current, this`c, this`esp0, ring`state
      ensures Valid() && ring == old(ring) && State() == SwitchTo(old(State()), d) && current != null
    {
      SwapStates(current, next, c, Pos(|ring|, c, d));
      current := next;
      c := Pos(|ring|, c, d);
      esp0 := current.top;
    }

    method SwapStates(prev: Proc, next: Proc, ghost i: nat, ghost j: nat)
      requires Simple(ring) && i < |ring| && j < |ring| && i != j && prev == ring[i] && next == ring[j]
      modifies ring`state
      ensures View(ring) == HandOver(old(View(ring)), i, j)
    {
      ghost var goal := HandOver(View(ring), i, j);
      if prev.state == Running { prev.state := Ready; }
      next.state := Running;
      SameView(ring, goal);
    }

    /** sys_exit, up to the halt that follows when nothing else can run. */
    method Exit(code: int)
      requires Valid()
      modifies this`current, this`c, this`esp0, ring`state, ring`exitCode
      ensures Valid() && ring == old(ring)
      ensures State() == if old(current) == null then old(State()) else SchedModel.Exit(old(State()))
      ensures old(current) != null ==> old(current).exitCode == code
    {
      ghost var s := State();
      if current != null {
        current.state := Zombie;
        current.exitCode := code;
        SameView(ring, s.ring[s.c := s.ring[s.c].(state := Zombie)]);
      }
      Tick();
    }

    /** sys_ps: pid and state of the first min(max, ring size) processes in ring order from current. */
    method Ps(max: int) returns (count: int, entries: seq<(u32, ProcState)>)
      requires Valid()
      ensures max <= 0 ==> count == -1
      ensures max > 0 && current == null ==> count == 0
      ensures max > 0 && current != null ==>
                && count == |entries| == (if max < |ring| then max else |ring|)
                && forall i | 0 <= i < count ::
                     var q := Listing(State(), count)[i]; entries[i] == (q.id.pid, q.state)
    {
      entries := [];
      if max <= 0 { return -1, entries; }
      if current == null { return 0, entries; }
      var p := current;
      entries := [(p.pid, p.state)];
      p := p.next;
      while p != current && |entries| < max
        invariant 1 <= |entries| <= |ring| && |entries| <= max && p == ring[Pos(|ring|, c, |entries|)]
        invariant forall i | 0 <= i < |entries| ::
                    var q := ring[Pos(|ring|, c, i)]; entries[i] == (q.pid, q.state)
        decreases |ring| - |entries|
      {
        entries := entries + [(p.pid, p.state)];
        p := p.next;
      }
      count := |entries|;
    }
  }

  /** The distance the search stops at is taken exactly when a READY process other than current stands
      there. */
  lemma ChosenIs<T>(s: Sched<T>, d: nat)
    requires s.c < |s.ring| && 1 <= d <= |s.ring|
    requires d == if FirstReady(s, 1) <= SEARCH_STEPS + 1 then FirstReady(s, 1) else SEARCH_STEPS + 1
    ensures Chosen(s) == if d < |s.ring| && ReadyAt(s, d) then d else 0
    ensures Pos(|s.ring|, s.c, d) == s.c <==> d == |s.ring|
  {
  }

  lemma FirstReadyIs<T>(s: Sched<T>, d: nat)
    requires s.c < |s.ring| && 1 <= d <= |s.ring| && forall j | 1 <= j < d :: !ReadyAt(s, j)
    ensures FirstReady(s, 1) >= d && (d == |s.ring| || ReadyAt(s, d) ==> FirstReady(s, 1) == d)
  {
  }
}
