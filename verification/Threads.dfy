/** Runs of a system of kernel threads that give up the CPU only through context_switch. */
module Threads {
  import opened Words
  import opened ContextSwitch

  const PCB_WORDS: nat := 104       // sizeof(process_t) / 4

  /** A stack of `size` words. */
  datatype Stack = Stack(base: nat, size: nat) {
    function Top(): nat { base + size }
  }

  /** `threads` maps the word index of each PCB to the stack that thread runs on. */
  datatype Sys = Sys(r: Regs, m: seq<u32>, current: nat, threads: map<nat, Stack>)

  predicate Apart(a: nat, n: nat, b: nat, k: nat) {
    a + n <= b || b + k <= a
  }

  /** The PCB and stack of one thread share no word with those of another. */
  predicate ThreadsApart(t: nat, ts: Stack, u: nat, us: Stack) {
    && Apart(t, PCB_WORDS, u, PCB_WORDS) && Apart(t, PCB_WORDS, us.base, us.size)
    && Apart(ts.base, ts.size, u, PCB_WORDS) && Apart(ts.base, ts.size, us.base, us.size)
  }

  /** The words that carry a suspended thread's context: the esp and page_dir fields of its PCB
      and its stack. (The scheduler may rewrite the other fields of any PCB.) */
  predicate Owns(t: nat, ts: Stack, k: nat) {
    k == t + 1 || k == t + 4 || ts.base <= k < ts.Top()
  }

  ghost predicate Layout(threads: map<nat, Stack>, len: nat) {
    && (forall t | t in threads ::
          && t + PCB_WORDS <= len && threads[t].Top() <= len && threads[t].Top() < TWO32 / 4
          && Apart(t, PCB_WORDS, threads[t].base, threads[t].size))
    && (forall t, u | t in threads && u in threads && t != u :: ThreadsApart(t, threads[t], u, threads[u]))
  }

  /** The PCB's esp field points at five words of the thread's own stack. */
  predicate Suspended(m: seq<u32>, t: nat, ts: Stack) {
    t + 4 < |m| && m[t + 1] % 4 == 0 && ts.base <= m[t + 1] / 4 && m[t + 1] / 4 + 5 <= ts.Top() <= |m|
  }

  ghost predicate Inv(s: Sys) {
    && |s.m| <= TWO32 / 4 && Layout(s.threads, |s.m|)
    && s.current in s.threads && s.r.cr3 == s.m[s.current + 4]
    && (forall t | t in s.threads && t != s.current :: Suspended(s.m, t, s.threads[t]))
  }

  // ---- steps ----------------------------------------------------------------------------

  /** The running thread computes: it may change its registers and any memory but the words that
      carry another thread's context, create threads (which start suspended) and destroy others. */
  ghost predicate Works(s: Sys, s': Sys) {
    && s'.current == s.current && s'.r.cr3 == s.r.cr3 && |s'.m| == |s.m|
    && Layout(s'.threads, |s.m|) && s.current in s'.threads && s.current + 4 < |s.m|
    && s'.m[s.current + 4] == s.m[s.current + 4]
    && (forall t | t in s.threads && t in s'.threads :: s'.threads[t] == s.threads[t])
    && (forall t | t in s'.threads && t !in s.threads :: Suspended(s'.m, t, s'.threads[t]))
    && (forall t, k | t in s.threads && t in s'.threads && t != s.current && 0 <= k < |s.m| && Owns(t, s.threads[t], k) ::
          s'.m[k] == s.m[k])
  }

  /** The running thread has called context_switch(current, nxt) on its own stack. */
  ghost predicate Calls(s: Sys, nxt: nat) {
    var k := s.r.esp / 4;
    && s.current in s.threads && nxt in s.threads && nxt != s.current
    && OnStack(s.r, s.threads[s.current])
    && k + 2 < |s.m| && s.m[k + 1] == 4 * s.current && s.m[k + 2] == 4 * nxt
  }

  ghost predicate Switches(s: Sys, s': Sys, nxt: nat) {
    && Calls(s, nxt) && s.current + 4 < |s.m| && nxt + 4 < |s.m|
    && s'.threads == s.threads && s'.current == nxt
    && s'.m == SaveCurrent(s.r, s.m, s.current)
    && Loadable(s'.m, nxt) && Runs(s'.r, Saved(s'.m, nxt))
  }

  ghost predicate Next(s: Sys, s': Sys) {
    Works(s, s') || Switches(s, s', s'.current)
  }

  // ---- what a switch does ------------------------------------------------------------------

  /** The stack pointer at the call lies on stack `cs`, with room for the pushes. */
  predicate OnStack(r: Regs, cs: Stack) {
    r.esp % 4 == 0 && cs.base + 4 <= r.esp / 4 && r.esp / 4 + 3 <= cs.Top()
  }

  /** Saving the caller touches only the caller's own stack and PCB. */
  lemma SaveTouchesOwnRegion(r: Regs, m: seq<u32>, c: nat, cs: Stack, t: nat, ts: Stack, k: nat)
    requires OnStack(r, cs) && cs.Top() <= |m| && c + PCB_WORDS <= |m| && ThreadsApart(t, ts, c, cs)
    requires k < |m| && Owns(t, ts, k)
    ensures SaveCurrent(r, m, c)[k] == m[k]
  {
  }

  /** On one PCB and one stack: what the pushes and the store of esp leave behind is the context
      at the call. */
  lemma SaveRecordsContext(r: Regs, m: seq<u32>, t: nat, ts: Stack)
    requires |m| <= TWO32 / 4 && t + PCB_WORDS <= |m| && ts.Top() <= |m| && ts.Top() < TWO32 / 4
    requires Apart(t, PCB_WORDS, ts.base, ts.size) && r.cr3 == m[t + 4]
    requires OnStack(r, ts)
    ensures var m' := SaveCurrent(r, m, t);
            Suspended(m', t, ts) && r.esp + 4 < TWO32 && Saved(m', t) == AtCall(r, m)
  {
    var m', k := SaveCurrent(r, m, t), r.esp / 4;
    assert m'[t + 1] == r.esp - 16 && m'[t + 1] / 4 == k - 4;
    assert m'[k] == m[k] && m'[t + 4] == m[t + 4];
  }

  /** The caller is left suspended with exactly the context it had at the call. */
  lemma SwitchSavesContext(s: Sys, nxt: nat)
    requires Inv(s) && Calls(s, nxt)
    ensures var m := SaveCurrent(s.r, s.m, s.current);
            && Suspended(m, s.current, s.threads[s.current])
            && s.r.esp + 4 < TWO32
            && Saved(m, s.current) == AtCall(s.r, s.m)
  {
    SaveRecordsContext(s.r, s.m, s.current, s.threads[s.current]);
  }

  lemma SaveKeepsSuspended(r: Regs, m: seq<u32>, c: nat, cs: Stack, t: nat, ts: Stack)
    requires OnStack(r, cs) && cs.Top() <= |m| && c + PCB_WORDS <= |m| && ThreadsApart(t, ts, c, cs)
    requires t + PCB_WORDS <= |m| && Suspended(m, t, ts)
    ensures var m' := SaveCurrent(r, m, c);
            Suspended(m', t, ts) && m'[t + 1] == m[t + 1] && m'[t + 4] == m[t + 4]
  {
    SaveTouchesOwnRegion(r, m, c, cs, t, ts, t + 1);
    SaveTouchesOwnRegion(r, m, c, cs, t, ts, t + 4);
  }

  lemma SwitchKeepsSuspended(s: Sys, nxt: nat, t: nat)
    requires Inv(s) && Calls(s, nxt) && t in s.threads && t != s.current
    ensures var m := SaveCurrent(s.r, s.m, s.current);
            && Suspended(m, t, s.threads[t]) && Suspended(s.m, t, s.threads[t])
            && m[t + 1] == s.m[t + 1] && m[t + 4] == s.m[t + 4]
  {
    SaveKeepsSuspended(s.r, s.m, s.current, s.threads[s.current], t, s.threads[t]);
  }

  /** In every state of a run where a thread has called context_switch, the code can go through:
      the frame it needs is there and the next thread has a context to load. */
  lemma SwitchGoesThrough(s: Sys, nxt: nat)
    requires Inv(s) && Calls(s, nxt)
    ensures CallFrame(s.r, s.m, s.current, nxt) && Loadable(SaveCurrent(s.r, s.m, s.current), nxt)
  {
    assert Apart(s.current, PCB_WORDS, s.threads[s.current].base, s.threads[s.current].size);
    SwitchKeepsSuspended(s, nxt, nxt);
  }

  lemma WorksKeepsInv(s: Sys, s': Sys)
    requires Inv(s) && Works(s, s')
    ensures Inv(s')
  {
    forall t | t in s'.threads && t != s'.current ensures Suspended(s'.m, t, s'.threads[t]) {
      if t in s.threads { assert Owns(t, s.threads[t], t + 1); }
    }
  }

  /** Once the caller is saved, every thread but the one switched to is suspended. */
  lemma AllButNextSuspended(s: Sys, n: nat, t: nat)
    requires Inv(s) && Calls(s, n) && t in s.threads
    ensures Suspended(SaveCurrent(s.r, s.m, s.current), t, s.threads[t])
    ensures t != s.current ==> SaveCurrent(s.r, s.m, s.current)[t + 4] == s.m[t + 4]
  {
    if t == s.current { SwitchSavesContext(s, n); } else { SwitchKeepsSuspended(s, n, t); }
  }

  lemma SwitchesKeepsInv(s: Sys, s': Sys, n: nat)
    requires Inv(s) && Switches(s, s', n)
    ensures Inv(s')
  {
    AllButNextSuspended(s, n, n);
    forall t | t in s'.threads && t != n ensures Suspended(s'.m, t, s'.threads[t]) {
      AllButNextSuspended(s, n, t);
    }
  }

  lemma NextKeepsInv(s: Sys, s': Sys)
    requires Inv(s) && Next(s, s')
    ensures Inv(s')
  {
    if Works(s, s') { WorksKeepsInv(s, s'); } else { SwitchesKeepsInv(s, s', s'.current); }
  }

  /** Thread `t` owns the same words in both states, holding the same values. */
  ghost predicate Untouched(s: Sys, s': Sys, t: nat) {
    && t in s.threads && t in s'.threads && s'.threads[t] == s.threads[t] && |s'.m| == |s.m|
    && forall k | 0 <= k < |s.m| && Owns(t, s.threads[t], k) :: s'.m[k] == s.m[k]
  }

  /** No step changes a word owned by a thread that is not running in the state it starts from. */
  lemma NextKeepsOthers(s: Sys, s': Sys, t: nat)
    requires Inv(s) && Next(s, s') && t in s.threads && t in s'.threads && t != s.current
    ensures Untouched(s, s', t)
  {
    if !Works(s, s') {
      forall k | 0 <= k < |s.m| && Owns(t, s.threads[t], k) ensures s'.m[k] == s.m[k] {
        SaveTouchesOwnRegion(s.r, s.m, s.current, s.threads[s.current], t, s.threads[t], k);
      }
    }
  }

  // ---- runs -------------------------------------------------------------------------------

  ghost predicate StepAt(run: seq<Sys>, i: nat) {
    i + 1 < |run| && Next(run[i], run[i + 1])
  }

  ghost predicate IsRun(run: seq<Sys>) {
    run != [] && Inv(run[0]) && forall i {:trigger StepAt(run, i)} | 0 <= i < |run| - 1 :: StepAt(run, i)
  }

  lemma {:induction false} RunInv(run: seq<Sys>, i: nat)
    requires IsRun(run) && i < |run|
    ensures Inv(run[i])
  {
    if i > 0 {
      RunInv(run, i - 1);
      assert StepAt(run, i - 1);
      NextKeepsInv(run[i - 1], run[i]);
    }
  }

  lemma RunStepKeepsOthers(run: seq<Sys>, i: nat, t: nat)
    requires IsRun(run) && i + 1 < |run| && t in run[i].threads && t in run[i + 1].threads && t != run[i].current
    ensures Untouched(run[i], run[i + 1], t)
  {
    RunInv(run, i);
    assert StepAt(run, i);
    NextKeepsOthers(run[i], run[i + 1], t);
  }

  lemma UntouchedTrans(a: Sys, b: Sys, c: Sys, t: nat)
    requires Untouched(a, b, t) && Untouched(b, c, t)
    ensures Untouched(a, c, t)
  {
  }

  /** While a thread stays switched out, every word of its PCB and stack keeps its value. */
  lemma {:induction false} WaitingThreadIsUntouched(run: seq<Sys>, i: nat, j: nat, t: nat)
    requires IsRun(run) && i <= j < |run|
    requires forall x | i <= x <= j :: t in run[x].threads
    requires forall x | i <= x < j :: run[x].current != t
    ensures Untouched(run[i], run[j], t)
    decreases j
  {
    if i < j {
      WaitingThreadIsUntouched(run, i, j - 1, t);
      RunStepKeepsOthers(run, j - 1, t);
      UntouchedTrans(run[i], run[j - 1], run[j], t);
    }
  }

  lemma SaveLeavesStackAbove(s: Sys, nxt: nat, k: nat)
    requires Inv(s) && Calls(s, nxt) && s.r.esp / 4 <= k < s.threads[s.current].Top() && k < |s.m|
    ensures SaveCurrent(s.r, s.m, s.current)[k] == s.m[k] && Owns(s.current, s.threads[s.current], k)
  {
    assert Apart(s.current, PCB_WORDS, s.threads[s.current].base, s.threads[s.current].size);
  }

  /** What a switch away from `t` leaves in memory, and what it leaves alone. */
  ghost predicate LeftAt(s: Sys, s': Sys, t: nat) {
    && t in s.threads && t in s'.threads && s'.threads[t] == s.threads[t] && |s'.m| == |s.m| <= TWO32 / 4
    && s.threads[t].Top() < TWO32 / 4
    && s.r.esp % 4 == 0 && s.r.esp / 4 < |s.m| && s.r.esp + 4 < TWO32
    && Suspended(s'.m, t, s.threads[t]) && Saved(s'.m, t) == AtCall(s.r, s.m)
    && forall k | s.r.esp / 4 <= k < s.threads[t].Top() && k < |s.m| ::
         s'.m[k] == s.m[k] && Owns(t, s.threads[t], k)
  }

  lemma SwitchAway(s: Sys, s': Sys)
    requires Inv(s) && Next(s, s') && s'.current != s.current
    ensures LeftAt(s, s', s.current)
  {
    SwitchSavesContext(s, s'.current);
    forall k | s.r.esp / 4 <= k < s.threads[s.current].Top() && k < |s.m|
      ensures s'.m[k] == s.m[k] && Owns(s.current, s.threads[s.current], k)
    {
      SaveLeavesStackAbove(s, s'.current, k);
    }
  }

  /** What a switch to `s'.current` loads. */
  lemma SwitchTo(s: Sys, s': Sys)
    requires Inv(s) && Next(s, s') && s'.current != s.current
    ensures s'.current in s'.threads && Suspended(s'.m, s'.current, s'.threads[s'.current])
    ensures Loadable(s'.m, s'.current) && Runs(s'.r, Saved(s'.m, s'.current))
  {
    SwitchKeepsSuspended(s, s'.current, s'.current);
  }

  /** The saved context is determined by the words its thread owns. */
  lemma FrameDetermines(s: Sys, s': Sys, t: nat)
    requires Untouched(s, s', t) && Suspended(s.m, t, s.threads[t])
    requires |s.m| <= TWO32 / 4 && s.threads[t].Top() < TWO32 / 4
    ensures Suspended(s'.m, t, s.threads[t]) && Saved(s'.m, t) == Saved(s.m, t)
  {
    var sp, base := s.m[t + 1] / 4, s.threads[t];
    assert Owns(t, base, t + 1) && Owns(t, base, t + 4);
    assert forall x | sp <= x < sp + 5 :: Owns(t, base, x);
  }

  lemma RunSwitchAway(run: seq<Sys>, i: nat)
    requires IsRun(run) && i + 1 < |run| && run[i + 1].current != run[i].current
    ensures LeftAt(run[i], run[i + 1], run[i].current)
  {
    RunInv(run, i);
    assert StepAt(run, i);
    SwitchAway(run[i], run[i + 1]);
  }

  lemma RunSwitchTo(run: seq<Sys>, j: nat)
    requires IsRun(run) && j + 1 < |run| && run[j + 1].current != run[j].current
    ensures var d := run[j + 1];
            && d.current in d.threads && Suspended(d.m, d.current, d.threads[d.current])
            && Loadable(d.m, d.current) && Runs(d.r, Saved(d.m, d.current))
  {
    RunInv(run, j);
    assert StepAt(run, j);
    SwitchTo(run[j], run[j + 1]);
  }

  lemma ResumesFrom(a: Sys, b: Sys, d: Sys, t: nat)
    requires LeftAt(a, b, t) && Untouched(b, d, t)
    requires Loadable(d.m, t) && Runs(d.r, Saved(d.m, t))
    ensures Runs(d.r, AtCall(a.r, a.m)) && |d.m| == |a.m|
    ensures forall k | a.r.esp / 4 <= k < a.threads[t].Top() && k < |a.m| :: d.m[k] == a.m[k]
  {
    FrameDetermines(b, d, t);
  }

  /** The main result. A thread that called context_switch at step i and is next running at step
      j + 1 continues at its own return address, with the ebx, esi, edi, ebp, esp and page
      directory it had at the call, and with its stack above the call as it left it. */
  lemma ResumesWhereItLeftOff(run: seq<Sys>, i: nat, j: nat)
    requires IsRun(run) && i < j < |run| - 1
    requires var t := run[i].current;
             && run[j + 1].current == t
             && (forall x | i < x <= j :: run[x].current != t)
             && (forall x | i <= x <= j + 1 :: t in run[x].threads)
    ensures run[i].r.esp % 4 == 0 && run[i].r.esp / 4 < |run[i].m| && run[i].r.esp + 4 < TWO32
    ensures Runs(run[j + 1].r, AtCall(run[i].r, run[i].m))
    ensures |run[j + 1].m| == |run[i].m|
    ensures forall k | run[i].r.esp / 4 <= k < run[i].threads[run[i].current].Top() && k < |run[i].m| ::
              run[j + 1].m[k] == run[i].m[k]
  {
    var t := run[i].current;
    RunSwitchAway(run, i);
    WaitingThreadIsUntouched(run, i + 1, j + 1, t);
    RunSwitchTo(run, j);
    ResumesFrom(run[i], run[i + 1], run[j + 1], t);
  }

  /** A thread that has waited since step i first runs with the context its memory held then, on
      a stack whose words are those of step i. This is how a new thread starts. */
  lemma FirstRun(run: seq<Sys>, i: nat, j: nat, t: nat)
    requires IsRun(run) && i <= j < |run| - 1 && run[j + 1].current == t
    requires (forall x | i <= x <= j :: run[x].current != t) && (forall x | i <= x <= j + 1 :: t in run[x].threads)
    ensures Loadable(run[i].m, t) && Runs(run[j + 1].r, Saved(run[i].m, t))
    ensures Untouched(run[i], run[j + 1], t)
  {
    RunInv(run, i);
    RunSwitchTo(run, j);
    WaitingThreadIsUntouched(run, i, j + 1, t);
    FrameDetermines(run[i], run[j + 1], t);
  }

  /** The assembly makes exactly the switch step: from a state of a run in which the running
      thread has called it, context_switch ends in the next state of the run. */
  method Switch(mc: Machine, ghost s: Sys, ghost nxt: nat) returns (ghost s': Sys)
    requires Inv(s) && Calls(s, nxt) && mc.r == s.r && mc.mem[..] == s.m
    modifies mc, mc.mem
    ensures s' == Sys(mc.r, mc.mem[..], nxt, s.threads) && Switches(s, s', nxt) && Inv(s')
  {
    SwitchGoesThrough(s, nxt);
    mc.ContextSwitch(s.current, nxt);
    s' := Sys(mc.r, mc.mem[..], nxt, s.threads);
    SwitchesKeepsInv(s, s', nxt);
  }
}
