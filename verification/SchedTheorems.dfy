/** The main results about the scheduler, over every run. */
module SchedTheorems {
  import opened SchedModel

  function Ids<T>(ring: seq<Pcb<T>>): set<T> {
    set i | 0 <= i < |ring| :: ring[i].id
  }

  /** Process `id` stands at position i. */
  ghost predicate At<T>(s: Sched<T>, i: nat, id: T) {
    i < |s.ring| && s.ring[i].id == id
  }

  // ---- the search -------------------------------------------------------------------------------

  /** A tick switches exactly when some other READY process stands within 65 places; it then picks the
      nearest. On a ring of up to 66 processes the bounded search therefore misses none. */
  lemma TickFindsNearest<T>(s: Sched<T>)
    requires Inv(s)
    ensures Tick(s).c != s.c <==>
              exists k | 1 <= k < |s.ring| && k <= 65 :: ReadyAt(s, k)
    ensures Tick(s).c != s.c ==>
              var k := Dist(|s.ring|, s.c, Tick(s).c);
              && ReadyAt(s, k) && (forall j | 1 <= j < k :: !ReadyAt(s, j))
              && Tick(s).ring[Tick(s).c].state == Running && Tick(s).esp0 == s.ring[Tick(s).c].top
    ensures Tick(s).c == s.c ==> Tick(s) == s
  {
  }

  /** On every ring of at most 66 processes a tick switches exactly when some other process is READY, and
      no READY process stands between the old current and the new one, going round from the one to the
      other. */
  lemma TickMissesNone<T>(s: Sched<T>)
    requires Inv(s) && |s.ring| <= 66
    ensures Tick(s).c != s.c <==> exists i | 0 <= i < |s.ring| && i != s.c :: s.ring[i].state == Ready
    ensures var j := Tick(s).c;
            && j < |s.ring| && (j != s.c ==> s.ring[j].state == Ready)
            && (s.c < j ==> forall i | s.c < i < j :: s.ring[i].state != Ready)
            && (j < s.c ==> forall i | (s.c < i < |s.ring|) || (0 <= i < j) :: s.ring[i].state != Ready)
  {
    var j := Tick(s).c;
    forall i | 0 <= i < |s.ring| && i != s.c && s.ring[i].state == Ready
      ensures ReadyAt(s, Dist(|s.ring|, s.c, i)) && j != s.c && Dist(|s.ring|, s.c, j) <= Dist(|s.ring|, s.c, i)
    {
      var k := Dist(|s.ring|, s.c, i);
      assert ReadyAt(s, k);
      assert FirstReady(s, 1) <= k;
    }
  }

  /** Who a tick changes: when the CPU changes hands, the new current becomes RUNNING, the old one READY if
      it was RUNNING and as it was otherwise; no third process changes, and nobody moves. */
  lemma TickStates<T>(s: Sched<T>, i: nat)
    requires Inv(s) && i < |s.ring|
    ensures var t := Tick(s);
            && |t.ring| == |s.ring|
            && (t.c == s.c ==> t.ring[i] == s.ring[i])
            && (t.c != s.c && i == t.c ==> t.ring[i] == s.ring[i].(state := Running))
            && (t.c != s.c && i == s.c ==>
                  t.ring[i] == if s.ring[i].state == Running then s.ring[i].(state := Ready) else s.ring[i])
            && (i != t.c && i != s.c ==> t.ring[i] == s.ring[i])
  {
  }

  /** sys_exit leaves the caller a ZOMBIE in its place. The CPU changes hands exactly when some other READY
      process stands within 65 places. */
  lemma ExitLeavesZombie<T>(s: Sched<T>)
    requires Inv(s)
    ensures var t := Step(s, ExitOp);
            && |t.ring| == |s.ring| && t.ring[s.c] == s.ring[s.c].(state := Zombie)
            && (t.c != s.c <==> exists k | 1 <= k < |s.ring| && k <= 65 :: ReadyAt(s, k))
  {
    var z := s.(ring := s.ring[s.c := s.ring[s.c].(state := Zombie)]);
    assert forall k | 1 <= k < |s.ring| :: ReadyAt(z, k) == ReadyAt(s, k);
    TickFindsNearest(z);
    assert Inv(z);
    TickStates(z, s.c);
  }

  /** scheduler_add puts the process, READY, right behind the head. Everyone else keeps state and order,
      and current stays current. */
  lemma AddPlaces<T>(s: Sched<T>, id: T, top: nat)
    requires s.c < |s.ring|
    ensures var t := Add(s, id, top);
            && |t.ring| == |s.ring| + 1 && t.ring[0] == s.ring[0]
            && t.ring[1].id == id && t.ring[1].state == Ready && t.ring[1].top == top
            && (forall i | 1 <= i < |s.ring| :: t.ring[i + 1] == s.ring[i])
            && t.c < |t.ring| && t.ring[t.c] == s.ring[s.c] && t.esp0 == s.esp0
  {
  }

  /** scheduler_remove of a process other than current: everyone else keeps state and order, and current
      stays current. */
  lemma RemoveKeepsOrder<T>(s: Sched<T>, x: nat)
    requires s.c < |s.ring| && x < |s.ring| && x != s.c
    ensures var t := Remove(s, x);
            && |t.ring| == |s.ring| - 1
            && (forall i | 0 <= i < x :: t.ring[i] == s.ring[i])
            && (forall i | x < i < |s.ring| :: t.ring[i - 1] == s.ring[i])
            && t.c < |t.ring| && t.ring[t.c] == s.ring[s.c] && t.esp0 == s.esp0
  {
  }

  /** Beyond 66 the search can miss: a READY process 66 or more places away, with none before it, is
      never reached, however many ticks follow. (MAX_PROCESSES is not enforced anywhere.) */
  lemma {:induction false} FarReadyIsMissed<T>(s: Sched<T>, n: nat)
    requires Inv(s) && 65 < FirstReady(s, 1) < |s.ring|
    ensures Ticks(s, n) == s
  {
    if n > 0 { FarReadyIsMissed(s, n - 1); }
  }

  function Ticks<T>(s: Sched<T>, n: nat): Sched<T>
    requires s.c < |s.ring|
    decreases n
  {
    if n == 0 then s else Ticks(Tick(s), n - 1)
  }

  // ---- bounded wait -----------------------------------------------------------------------------

  /** How far `id`, standing at position i, is from current. */
  function Wait<T>(s: Sched<T>, i: nat): nat
    requires s.c < |s.ring| && i < |s.ring|
  {
    Dist(|s.ring|, s.c, i)
  }

  /** Where position i goes in one step. */
  ghost function Moved<T>(s: Sched<T>, op: Op<T>, i: nat): nat {
    match op
    case AddOp(_, _) => if i == 0 then 0 else i + 1
    case RemoveOp(r) => if r < i then i - 1 else i
    case _ => i
  }

  function IsTick<T>(op: Op<T>): nat { if op.TickOp? || op.ExitOp? then 1 else 0 }
  function IsAdd<T>(op: Op<T>): nat { if op.AddOp? then 1 else 0 }

  /** A waiting READY process that is not removed stays where it is, identity and state, and its
      distance to current falls by at least one at every tick and grows by at most one at an addition,
      as long as the ring is no larger than the search reaches. */
  lemma StepBringsNearer<T>(s: Sched<T>, op: Op<T>, i: nat)
    requires Inv(s) && Enabled(s, op) && i < |s.ring| && i != s.c && s.ring[i].state == Ready
    requires |s.ring| <= 66 && op != RemoveOp(i)
    ensures var t, j := Step(s, op), Moved(s, op, i);
            && Inv(t) && At(t, j, s.ring[i].id)
            && (j != t.c ==> t.ring[j].state == Ready && Wait(t, j) + IsTick(op) <= Wait(s, i) + IsAdd(op))
  {
    StepKeepsInv(s, op);
    match op
    case AddOp(id, top) => AddMovesAway(s, id, top, i);
    case RemoveOp(r) => RemoveBringsNearer(s, r, i);
    case TickOp => TickBringsNearer(s, i);
    case ExitOp => TickBringsNearer(s.(ring := s.ring[s.c := s.ring[s.c].(state := Zombie)]), i);
  }

  lemma AddMovesAway<T>(s: Sched<T>, id: T, top: nat, i: nat)
    requires s.c < |s.ring| && i < |s.ring|
    ensures var t, j := Add(s, id, top), if i == 0 then 0 else i + 1;
            && t.c < |t.ring| && j < |t.ring| && t.ring[j] == s.ring[i] && Wait(t, j) <= Wait(s, i) + 1
  {
  }

  lemma RemoveBringsNearer<T>(s: Sched<T>, r: nat, i: nat)
    requires s.c < |s.ring| && i < |s.ring| && r < |s.ring| && r != i && r != s.c
    ensures var t, j := Remove(s, r), if r < i then i - 1 else i;
            && t.c < |t.ring| && j < |t.ring| && t.ring[j] == s.ring[i] && Wait(t, j) <= Wait(s, i)
  {
  }

  lemma TickBringsNearer<T>(s: Sched<T>, i: nat)
    requires Inv(s) && i < |s.ring| && i != s.c && s.ring[i].state == Ready && |s.ring| <= 66
    ensures var t := Tick(s);
            && t.c < |t.ring| == |s.ring| && t.ring[i].id == s.ring[i].id
            && (i != t.c ==> t.ring[i].state == Ready && Wait(t, i) < Wait(s, i))
  {
    var k := Dist(|s.ring|, s.c, i);
    assert ReadyAt(s, k);
    assert FirstReady(s, 1) <= k;
  }

  /** The process at position i is waiting all along the run: never removed, never current. */
  ghost predicate Waits<T>(s: Sched<T>, ops: seq<Op<T>>, i: nat)
    requires Inv(s) && Legal(s, ops)
    decreases |ops|
  {
    && i < |s.ring| && i != s.c && |s.ring| <= 66
    && (ops == [] ||
        (ops[0] != RemoveOp(i) &&
         (StepKeepsInv(s, ops[0]); Waits(Step(s, ops[0]), ops[1..], Moved(s, ops[0], i)))))
  }

  function CountTicks<T>(ops: seq<Op<T>>): nat {
    if ops == [] then 0 else IsTick(ops[0]) + CountTicks(ops[1..])
  }

  function CountAdds<T>(ops: seq<Op<T>>): nat {
    if ops == [] then 0 else IsAdd(ops[0]) + CountAdds(ops[1..])
  }

  /** Round robin: over any run in which a READY process waits without being removed and without
      becoming current, there are fewer ticks than its distance from current at the start plus the
      number of additions. So it runs within (ring size - 1) ticks plus one per addition. */
  lemma {:induction false} BoundedWait<T>(s: Sched<T>, ops: seq<Op<T>>, i: nat)
    requires Inv(s) && Legal(s, ops) && Waits(s, ops, i) && s.ring[i].state == Ready
    ensures CountTicks(ops) < Wait(s, i) + CountAdds(ops)
    ensures CountTicks(ops) < |s.ring| - 1 + CountAdds(ops)
    decreases |ops|
  {
    if ops != [] {
      StepKeepsInv(s, ops[0]);
      StepBringsNearer(s, ops[0], i);
      BoundedWait(Step(s, ops[0]), ops[1..], Moved(s, ops[0], i));
    }
  }

  // ---- membership, exits, the TSS -----------------------------------------------------------------

  /** One operation's effect on the set of processes in the ring. */
  ghost function Members<T>(s: Sched<T>, op: Op<T>, ids: set<T>): set<T>
    requires Enabled(s, op)
  {
    match op
    case AddOp(id, _) => ids + {id}
    case RemoveOp(i) => ids - {s.ring[i].id}
    case _ => ids
  }

  ghost function MembersAfter<T>(s: Sched<T>, ops: seq<Op<T>>, ids: set<T>): set<T>
    requires Inv(s) && Legal(s, ops)
    decreases |ops|
  {
    if ops == [] then ids else
      StepKeepsInv(s, ops[0]);
      MembersAfter(Step(s, ops[0]), ops[1..], Members(s, ops[0], ids))
  }

  lemma AddMembers<T>(s: Sched<T>, id: T, top: nat)
    requires s.ring != []
    ensures Ids(Add(s, id, top).ring) == Ids(s.ring) + {id}
  {
    var r := Add(s, id, top).ring;
    assert r[1].id == id;
    forall i | 0 <= i < |s.ring| ensures s.ring[i].id in Ids(r) {
      assert r[if i == 0 then 0 else i + 1] == s.ring[i];
    }
  }

  lemma RemoveMembers<T>(s: Sched<T>, x: nat)
    requires x < |s.ring| && Distinct(s.ring)
    ensures Ids(Remove(s, x).ring) == Ids(s.ring) - {s.ring[x].id}
  {
    var r := Remove(s, x).ring;
    forall i | 0 <= i < |s.ring| && i != x ensures s.ring[i].id in Ids(r) {
      assert r[if i < x then i else i - 1] == s.ring[i];
    }
    forall i | 0 <= i < |r| ensures r[i].id in Ids(s.ring) && r[i].id != s.ring[x].id {
      assert r[i] == s.ring[if i < x then i else i + 1];
    }
  }

  lemma StepMembers<T>(s: Sched<T>, op: Op<T>)
    requires Inv(s) && Enabled(s, op)
    ensures Ids(Step(s, op).ring) == Members(s, op, Ids(s.ring))
  {
    match op
    case AddOp(id, top) => AddMembers(s, id, top);
    case RemoveOp(x) => RemoveMembers(s, x);
    case _ =>
      var r := Step(s, op).ring;
      assert |r| == |s.ring| && forall i | 0 <= i < |r| :: r[i].id == s.ring[i].id;
  }

  /** Over every run the ring holds exactly the processes added and not removed since, each once. */
  lemma {:induction false} RingIsAddedNotRemoved<T>(s: Sched<T>, ops: seq<Op<T>>)
    requires Inv(s) && Legal(s, ops)
    ensures Ids(Run(s, ops).ring) == MembersAfter(s, ops, Ids(s.ring)) && Distinct(Run(s, ops).ring)
    decreases |ops|
  {
    if ops != [] {
      StepKeepsInv(s, ops[0]);
      StepMembers(s, ops[0]);
      RingIsAddedNotRemoved(Step(s, ops[0]), ops[1..]);
    }
  }

  /** The process at position i is not removed during the run. */
  ghost predicate Stays<T>(s: Sched<T>, ops: seq<Op<T>>, i: nat)
    requires Inv(s) && Legal(s, ops)
    decreases |ops|
  {
    && i < |s.ring|
    && (ops == [] ||
        (ops[0] != RemoveOp(i) && (StepKeepsInv(s, ops[0]); Stays(Step(s, ops[0]), ops[1..], Moved(s, ops[0], i)))))
  }

  ghost function MovedBy<T>(s: Sched<T>, ops: seq<Op<T>>, i: nat): nat
    requires Inv(s) && Legal(s, ops)
    decreases |ops|
  {
    if ops == [] then i else
      StepKeepsInv(s, ops[0]);
      MovedBy(Step(s, ops[0]), ops[1..], Moved(s, ops[0], i))
  }

  lemma StepKeepsZombie<T>(s: Sched<T>, op: Op<T>, i: nat)
    requires Inv(s) && Enabled(s, op) && op != RemoveOp(i)
    requires i < |s.ring| && i != s.c && s.ring[i].state == Zombie
    ensures var t, j := Step(s, op), Moved(s, op, i);
            At(t, j, s.ring[i].id) && j != t.c && t.ring[j].state == Zombie
  {
  }

  /** A process that has exited and been switched away from never runs again: over every run it stays
      a ZOMBIE and is never current. */
  lemma {:induction false} ZombieStaysDead<T>(s: Sched<T>, ops: seq<Op<T>>, i: nat)
    requires Inv(s) && Legal(s, ops) && Stays(s, ops, i) && i != s.c && s.ring[i].state == Zombie
    ensures var t, j := Run(s, ops), MovedBy(s, ops, i);
            At(t, j, s.ring[i].id) && j != t.c && t.ring[j].state == Zombie
    decreases |ops|
  {
    if ops != [] {
      StepKeepsInv(s, ops[0]);
      StepKeepsZombie(s, ops[0], i);
      ZombieStaysDead(Step(s, ops[0]), ops[1..], Moved(s, ops[0], i));
    }
  }

  ghost predicate EspOk<T>(s: Sched<T>) {
    s.c < |s.ring| && s.esp0 == s.ring[s.c].top
  }

  lemma StepEsp<T>(s: Sched<T>, op: Op<T>)
    requires Inv(s) && Enabled(s, op)
    ensures var t := Step(s, op);
            && t.c < |t.ring|
            && (EspOk(s) ==> EspOk(t)) && (t.ring[t.c].id != s.ring[s.c].id ==> EspOk(t))
  {
    StepKeepsInv(s, op);
    match op
    case AddOp(id, top) => AddPlaces(s, id, top);
    case RemoveOp(i) => RemoveKeepsOrder(s, i);
    case TickOp => TickEsp(s);
    case ExitOp => TickEsp(s.(ring := s.ring[s.c := s.ring[s.c].(state := Zombie)]));
  }

  lemma TickEsp<T>(s: Sched<T>)
    requires s.c < |s.ring|
    ensures Tick(s) == s || EspOk(Tick(s))
  {
  }

  lemma {:induction false} RunEsp<T>(s: Sched<T>, ops: seq<Op<T>>)
    requires Inv(s) && Legal(s, ops)
    ensures var t := Run(s, ops);
            EspOk(s) || t.ring[t.c].id != s.ring[s.c].id ==> EspOk(t)
    decreases |ops|
  {
    if ops != [] {
      StepKeepsInv(s, ops[0]);
      StepEsp(s, ops[0]);
      RunEsp(Step(s, ops[0]), ops[1..]);
    }
  }

  /** Once the CPU has changed hands, and ever after, whoever runs, TSS.esp0 is the kernel stack top of the
      current process. */
  lemma EspTracksCurrent<T>(s: Sched<T>, xs: seq<Op<T>>, ys: seq<Op<T>>)
    requires Inv(s) && Legal(s, xs + ys)
    ensures Legal(s, xs)
    ensures var t := Run(s, xs);
            EspOk(s) || t.ring[t.c].id != s.ring[s.c].id ==> EspOk(Run(s, xs + ys))
  {
    RunInTwo(s, xs, ys);
    RunEsp(s, xs);
    RunEsp(Run(s, xs), ys);
  }

  // ---- sys_ps ---------------------------------------------------------------------------------------

  /** The first k processes in ring order from current. */
  function Listing<T>(s: Sched<T>, k: nat): (r: seq<Pcb<T>>)
    requires s.c < |s.ring| && k <= |s.ring|
    ensures |r| == k && forall i | 0 <= i < k :: r[i] == s.ring[Pos(|s.ring|, s.c, i)]
  {
    if k == 0 then [] else Listing(s, k - 1) + [s.ring[Pos(|s.ring|, s.c, k - 1)]]
  }

  /** Nothing is listed twice, and a full listing leaves nothing out. */
  lemma ListingIsExact<T>(s: Sched<T>, k: nat)
    requires Inv(s) && k <= |s.ring|
    ensures Distinct(Listing(s, k))
    ensures k == |s.ring| ==> Ids(Listing(s, k)) == Ids(s.ring)
  {
    var r := Listing(s, k);
    forall i, j | 0 <= i < j < k ensures r[i].id != r[j].id {
      var a, b := Pos(|s.ring|, s.c, i), Pos(|s.ring|, s.c, j);
      assert a != b;
      assert s.ring[if a < b then a else b].id != s.ring[if a < b then b else a].id;
    }
    if k == |s.ring| {
      forall j | 0 <= j < k ensures s.ring[j].id in Ids(r) {
        assert r[Dist(|s.ring|, s.c, j)] == s.ring[j];
      }
    }
  }
}
