/** kernel/proc/context_switch.asm as a register and stack machine. Registers hold byte
    addresses; memory is a sequence of words. */
module ContextSwitch {
  import opened Words

  datatype Regs = Regs(
    eax: u32, ebx: u32, ecx: u32, edx: u32, esi: u32, edi: u32, ebp: u32, esp: u32,
    eip: u32, eflags: u32, cs: u32, ss: u32, cr3: u32)

  /** What context_switch must hand back to a thread. */
  datatype Context = Context(ebx: u32, esi: u32, edi: u32, ebp: u32, esp: u32, eip: u32, cr3: u32)

  /** Addresses of code labels; any values will do. */
  datatype Labels = Labels(kthreadEntry: u32, afterCall: u32, iretTrampoline: u32)

  predicate InterruptsOn(eflags: u32) {
    eflags / 0x200 % 2 == 1
  }

  function SetInterrupts(eflags: u32): (e: u32)
    ensures e / 0x200 % 2 == 1 && e % 0x200 == eflags % 0x200 && e / 0x400 == eflags / 0x400
  {
    if InterruptsOn(eflags) then eflags else eflags + 0x200
  }

  // ---- specification --------------------------------------------------------------------

  /** The context a thread has at the moment it calls context_switch: its callee-saved
      registers, the return address on top of its stack, the stack once that is popped. */
  function AtCall(r: Regs, m: seq<u32>): Context
    requires r.esp % 4 == 0 && r.esp + 4 < TWO32 && r.esp / 4 < |m|
  {
    Context(r.ebx, r.esi, r.edi, r.ebp, r.esp + 4, m[r.esp / 4], r.cr3)
  }

  /** The PCB at word `t` points to five saved words. */
  predicate Loadable(m: seq<u32>, t: nat) {
    t + 4 < |m| && m[t + 1] % 4 == 0 && m[t + 1] / 4 + 5 <= |m| && m[t + 1] + 20 < TWO32
  }

  /** The context kept in memory for the suspended thread whose PCB is at word `t`. */
  function Saved(m: seq<u32>, t: nat): Context
    requires Loadable(m, t)
  {
    var k := m[t + 1] / 4;
    Context(m[k], m[k + 1], m[k + 2], m[k + 3], m[t + 1] + 20, m[k + 4], m[t + 4])
  }

  /** Memory after the first half of context_switch: four pushes and current->esp. */
  function SaveCurrent(r: Regs, m: seq<u32>, cur: nat): (m': seq<u32>)
    requires r.esp % 4 == 0 && 16 <= r.esp && r.esp / 4 <= |m| && cur + 1 < |m|
    ensures |m'| == |m|
  {
    var k := r.esp / 4;
    m[k - 1 := r.ebp][k - 2 := r.edi][k - 3 := r.esi][k - 4 := r.ebx][cur + 1 := r.esp - 16]
  }

  /** What context_switch leaves for the thread it suspends, word by word: below the return address, from
      low to high, ebx, esi, edi and ebp; in its PCB's second word the address of the first of them. No
      other word changes. */
  lemma SavedWords(r: Regs, m: seq<u32>, cur: nat, nxt: nat, x: nat)
    requires CallFrame(r, m, cur, nxt) && x < |m|
    ensures var k, w := r.esp / 4, SaveCurrent(r, m, cur);
            && w[k - 4] == r.ebx && w[k - 3] == r.esi && w[k - 2] == r.edi && w[k - 1] == r.ebp
            && w[cur + 1] == r.esp - 16
            && (!(k - 4 <= x < k) && x != cur + 1 ==> w[x] == m[x])
  {
  }

  /** And this is what it finds there when it comes back: the five words from the address in the PCB's
      second word on, the fifth where to go on, and the page directory in the PCB's fifth word. */
  lemma FoundWords(m: seq<u32>, t: nat, k: nat)
    requires Loadable(m, t) && m[t + 1] == 4 * k
    ensures var c := Saved(m, t);
            && c.ebx == m[k] && c.esi == m[k + 1] && c.edi == m[k + 2] && c.ebp == m[k + 3]
            && c.eip == m[k + 4] && c.esp == 4 * k + 20 && c.cr3 == m[t + 4]
  {
  }

  /** The call frame of context_switch(cur, nxt): [esp] return address, [esp+4] current,
      [esp+8] next, with room for four pushes, and current's PCB not on that stretch. */
  predicate CallFrame(r: Regs, m: seq<u32>, cur: nat, nxt: nat) {
    var k := r.esp / 4;
    && |m| <= TWO32 / 4 && r.esp % 4 == 0 && 4 <= k && k + 2 < |m|
    && m[k + 1] == 4 * cur && m[k + 2] == 4 * nxt
    && cur + 4 < |m| && nxt + 4 < |m|
    && (cur + 1 < k - 4 || k + 2 < cur + 1)
  }

  /** Running with context `c`. */
  predicate Runs(r: Regs, c: Context) {
    Context(r.ebx, r.esi, r.edi, r.ebp, r.esp, r.eip, r.cr3) == c
  }

  /** The entry function is entered with interrupts on; its return address has taken the place of
      the popped pointer. */
  function AfterKthreadEntry(r: Regs, m: seq<u32>): Regs
    requires r.esp / 4 < |m|
  {
    r.(eflags := SetInterrupts(r.eflags), eax := m[r.esp / 4], eip := m[r.esp / 4])
  }

  function AfterIret(r: Regs, m: seq<u32>): Regs
    requires r.esp / 4 + 4 < |m|
  {
    var k := r.esp / 4;
    r.(eip := m[k], cs := m[k + 1], eflags := m[k + 2], esp := m[k + 3], ss := m[k + 4])
  }

  // ---- the code -------------------------------------------------------------------------

  class Machine {
    var r: Regs
    const mem: array<u32>

    constructor (regs: Regs, memory: array<u32>)
      ensures r == regs && mem == memory
    {
      r := regs;
      mem := memory;
    }

    method Push(v: u32)
      requires r.esp % 4 == 0 && 4 <= r.esp && r.esp / 4 <= mem.Length
      modifies this, mem
      ensures r == old(r).(esp := old(r.esp) - 4)
      ensures mem[..] == old(mem[..])[old(r.esp) / 4 - 1 := v]
    {
      r := r.(esp := r.esp - 4);
      mem[r.esp / 4] := v;
    }

    method Pop(ghost k: nat) returns (v: u32)
      requires r.esp == 4 * k && k < mem.Length && 4 * k + 4 < TWO32
      modifies this
      ensures r == old(r).(esp := 4 * (k + 1))
      ensures v == mem[k]
    {
      v := mem[r.esp / 4];
      r := r.(esp := r.esp + 4);
    }

    /** First half: push the callee-saved registers, store esp into current. */
    method SaveHalf(ghost cur: nat, ghost nxt: nat)
      requires CallFrame(r, mem[..], cur, nxt)
      modifies this, mem
      ensures mem[..] == SaveCurrent(old(r), old(mem[..]), cur)
      ensures r == old(r).(esp := old(r.esp) - 16, eax := 4 * cur)
      ensures mem[(r.esp + 24) / 4] == 4 * nxt
    {
      Push(r.ebp);
      Push(r.edi);
      Push(r.esi);
      Push(r.ebx);
      r := r.(eax := mem[(r.esp + 20) / 4]);
      mem[(r.eax + 4) / 4] := r.esp;
    }

    /** Second half: switch the page directory if it differs, then the stack; pop and return. */
    method LoadHalf(ghost nxt: nat)
      requires mem.Length <= TWO32 / 4 && Loadable(mem[..], nxt)
      requires (r.esp + 24) / 4 < mem.Length && mem[(r.esp + 24) / 4] == 4 * nxt
      modifies this
      ensures Runs(r, Saved(mem[..], nxt))
      ensures r.eflags == old(r.eflags) && r.cs == old(r.cs) && r.ss == old(r.ss)
    {
      assert (4 * nxt + 16) / 4 == nxt + 4 && (4 * nxt + 4) / 4 == nxt + 1;
      r := r.(ecx := mem[(r.esp + 24) / 4]);
      r := r.(edx := mem[(r.ecx + 16) / 4]);
      r := r.(eax := r.cr3);
      if r.eax != r.edx {
        r := r.(cr3 := r.edx);
      }
      r := r.(eax := mem[(r.esp + 24) / 4]);
      r := r.(esp := mem[(r.eax + 4) / 4]);
      PopFrame(mem[nxt + 1] / 4);
    }

    method PopFrame(ghost k: nat)
      requires r.esp == 4 * k && k + 5 <= mem.Length && 4 * k + 20 < TWO32
      modifies this
      ensures r == old(r).(ebx := mem[k], esi := mem[k + 1], edi := mem[k + 2], ebp := mem[k + 3],
                           eip := mem[k + 4], esp := 4 * k + 20)
    {
      var v := Pop(k);
      r := r.(ebx := v);
      v := Pop(k + 1);
      r := r.(esi := v);
      v := Pop(k + 2);
      r := r.(edi := v);
      v := Pop(k + 3);
      r := r.(ebp := v);
      v := Pop(k + 4);
      r := r.(eip := v);
    }

    /** context_switch: the caller's registers go onto its stack, and execution goes on with the
        context kept for the next thread. */
    method ContextSwitch(ghost cur: nat, ghost nxt: nat)
      requires CallFrame(r, mem[..], cur, nxt)
      requires Loadable(SaveCurrent(r, mem[..], cur), nxt)
      modifies this, mem
      ensures mem[..] == SaveCurrent(old(r), old(mem[..]), cur)
      ensures Runs(r, Saved(mem[..], nxt))
      ensures r.eflags == old(r.eflags) && r.cs == old(r.cs) && r.ss == old(r.ss)
    {
      SaveHalf(cur, nxt);
      LoadHalf(nxt);
    }

    /** kthread_entry, up to the call: sti, pop eax, call eax. */
    method KthreadEntry(labels: Labels)
      requires r.esp % 4 == 0 && r.esp / 4 < mem.Length && r.esp + 4 < TWO32
      modifies this, mem
      ensures r == AfterKthreadEntry(old(r), old(mem[..]))
      ensures mem[..] == old(mem[..])[r.esp / 4 := labels.afterCall]
    {
      r := r.(eflags := SetInterrupts(r.eflags));
      var v := Pop(r.esp / 4);
      r := r.(eax := v);
      Push(labels.afterCall);
      r := r.(eip := r.eax);
    }

    /** proc_iret_trampoline: iret to an outer ring pops eip, cs, eflags, esp, ss. */
    method Iret()
      requires r.esp % 4 == 0 && r.esp / 4 + 4 < mem.Length && r.esp + 20 < TWO32
      modifies this
      ensures r == AfterIret(old(r), mem[..])
    {
      ghost var k := r.esp / 4;
      var eip := Pop(k);
      var cs := Pop(k + 1);
      var eflags := Pop(k + 2);
      var esp := Pop(k + 3);
      var ss := Pop(k + 4);
      r := r.(eip := eip, cs := cs, eflags := eflags, esp := esp, ss := ss);
    }
  }
}
