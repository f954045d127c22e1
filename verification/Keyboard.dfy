/** kernel/drivers/keyboard.c: a ring buffer filled by the keyboard interrupt and emptied, one machine
    step at a time, by a single keyboard_getchar caller that the interrupt may cut in on anywhere. */
module Keyboard {
  import opened Words

  const SIZE: nat := 256

  /** Where the consumer is: testing the loop condition, about to read the slot, about to move tail. */
  datatype Pc = Test | Fetch | Advance

  /** Any pair of translation tables of 128 entries; 0 means unmapped. */
  datatype Layout = Layout(plain: seq<u8>, shifted: seq<u8>) {
    ghost predicate Ok() { |plain| == 128 && |shifted| == 128 }
  }

  /** The driver's variables and the consumer's, and what has happened so far: characters accepted into
      the buffer, characters returned, characters dropped. */
  datatype Kbd = Kbd(buf: seq<u8>, head: nat, tail: nat, shift: bool, pc: Pc, c: u8,
                     accepted: seq<u8>, returned: seq<u8>, dropped: nat)

  /** How many places slot j comes after slot `tail`. */
  function Ahead(tail: nat, j: nat): nat
    requires tail < SIZE && j < SIZE
  {
    if tail <= j then j - tail else j + SIZE - tail
  }

  /** Characters in the buffer. */
  function Count(head: nat, tail: nat): nat
    requires head < SIZE && tail < SIZE
  {
    Ahead(tail, head)
  }

  // ---- the interrupt ------------------------------------------------------------------------------

  /** The character a scan code types, or 0. */
  function Translate(l: Layout, shift: bool, scancode: u8): u8
    requires l.Ok()
  {
    if scancode in {0x2A, 0x36, 0xAA, 0xB6} || scancode >= 0x80 then 0
    else if shift then l.shifted[scancode] else l.plain[scancode]
  }

  function ShiftAfter(shift: bool, scancode: u8): bool {
    if scancode == 0x2A || scancode == 0x36 then true
    else if scancode == 0xAA || scancode == 0xB6 then false
    else shift
  }

  /** Push into the ring, or drop when it is full. */
  function Push(k: Kbd, ch: u8): Kbd
    requires |k.buf| == SIZE && k.head < SIZE && k.tail < SIZE
  {
    var next := (k.head + 1) % SIZE;
    if next == k.tail then k.(dropped := k.dropped + 1)
    else k.(buf := k.buf[k.head := ch], head := next, accepted := k.accepted + [ch])
  }

  function Irq(k: Kbd, l: Layout, scancode: u8): Kbd
    requires l.Ok() && |k.buf| == SIZE && k.head < SIZE && k.tail < SIZE
  {
    var ch := Translate(l, k.shift, scancode);
    var k1 := k.(shift := ShiftAfter(k.shift, scancode));
    if ch == 0 then k1 else Push(k1, ch)
  }

  // ---- the consumer -------------------------------------------------------------------------------

  function Consume(k: Kbd): Kbd
    requires |k.buf| == SIZE && k.head < SIZE && k.tail < SIZE
  {
    match k.pc
    case Test => if k.tail == k.head then k else k.(pc := Fetch)
    case Fetch => k.(c := k.buf[k.tail], pc := Advance)
    case Advance => k.(tail := (k.tail + 1) % SIZE, pc := Test, returned := k.returned + [k.c])
  }

  // ---- invariant ----------------------------------------------------------------------------------

  /** What was returned is a prefix of what was accepted; the rest is in the buffer, in order, from tail
      on; and a consumer past the test has something to take, which it has already read if it is
      about to move tail. */
  ghost predicate Inv(k: Kbd) {
    && |k.buf| == SIZE && k.head < SIZE && k.tail < SIZE
    && k.returned <= k.accepted && |k.accepted| - |k.returned| == Count(k.head, k.tail)
    && (forall j | 0 <= j < SIZE && Ahead(k.tail, j) < Count(k.head, k.tail) ::
          k.buf[j] == k.accepted[|k.returned| + Ahead(k.tail, j)])
    && (k.pc != Test ==> Count(k.head, k.tail) > 0)
    && (k.pc == Advance ==> k.c == k.accepted[|k.returned|])
  }

  function Initial(buf: seq<u8>): Kbd {
    Kbd(buf, 0, 0, false, Test, 0, [], [], 0)
  }

  lemma PushKeepsInv(k: Kbd, ch: u8)
    requires Inv(k)
    ensures Inv(Push(k, ch))
  {
  }

  lemma IrqKeepsInv(k: Kbd, l: Layout, scancode: u8)
    requires Inv(k) && l.Ok()
    ensures Inv(Irq(k, l, scancode))
  {
    var k1 := k.(shift := ShiftAfter(k.shift, scancode));
    PushKeepsInv(k1, Translate(l, k.shift, scancode));
  }

  lemma ConsumeKeepsInv(k: Kbd)
    requires Inv(k)
    ensures Inv(Consume(k))
  {
  }

  /** The interrupt writes no slot that still waits to be read, drops a character exactly when 255 are
      pending, and accepts it otherwise. */
  lemma IrqIsSafe(k: Kbd, l: Layout, scancode: u8)
    requires Inv(k) && l.Ok()
    ensures var t, ch := Irq(k, l, scancode), Translate(l, k.shift, scancode);
            && (forall j | 0 <= j < SIZE && Ahead(k.tail, j) < Count(k.head, k.tail) :: t.buf[j] == k.buf[j])
            && (t.dropped != k.dropped <==> ch != 0 && |k.accepted| - |k.returned| == 255)
            && t.accepted == (if ch != 0 && |k.accepted| - |k.returned| < 255 then k.accepted + [ch] else k.accepted)
            && t.tail == k.tail && t.pc == k.pc && t.c == k.c && t.returned == k.returned
  {
  }

  // ---- every interleaving ---------------------------------------------------------------------------

  datatype Event = Key(scancode: u8) | Consumer

  ghost function Run(k: Kbd, l: Layout, es: seq<Event>): (t: Kbd)
    requires l.Ok() && Inv(k)
    ensures Inv(t)
    decreases |es|
  {
    if es == [] then k else
      match es[0]
      case Key(s) => IrqKeepsInv(k, l, s); Run(Irq(k, l, s), l, es[1..])
      case Consumer => ConsumeKeepsInv(k); Run(Consume(k), l, es[1..])
  }

  /** Everything typed, whatever the buffer does. */
  function Typed(l: Layout, shift: bool, es: seq<Event>): seq<u8>
    requires l.Ok()
    decreases |es|
  {
    if es == [] then []
    else if es[0].Consumer? then Typed(l, shift, es[1..])
    else
      var ch := Translate(l, shift, es[0].scancode);
      (if ch == 0 then [] else [ch]) + Typed(l, ShiftAfter(shift, es[0].scancode), es[1..])
  }

  /** Shift is held after `es`: a shift key went down and none has come up since, or it was held at the
      start and none has come up at all. */
  ghost predicate Held(shift: bool, es: seq<Event>) {
    || (exists j | 0 <= j < |es| ::
          && (es[j] == Key(0x2A) || es[j] == Key(0x36))
          && forall i | j < i < |es| :: es[i] != Key(0xAA) && es[i] != Key(0xB6))
    || (shift && forall i | 0 <= i < |es| :: es[i] != Key(0xAA) && es[i] != Key(0xB6))
  }

  lemma HeldAfterFirst(shift: bool, es: seq<Event>)
    requires es != []
    ensures Held(shift, es) <==> Held(if es[0].Key? then ShiftAfter(shift, es[0].scancode) else shift, es[1..])
  {
    var rest := es[1..];
    assert forall i | 0 < i < |es| :: es[i] == rest[i - 1];
  }

  /** Everything typed, by the events alone. Whatever came before, a code below 0x80 other than a shift
      code types its shifted character if the last shift code before it was a press and its plain
      character otherwise, unless that is 0; nothing else types anything. */
  lemma {:induction false} TypesByLastShift(l: Layout, shift: bool, es: seq<Event>, s: u8)
    requires l.Ok()
    ensures Typed(l, shift, es + [Consumer]) == Typed(l, shift, es)
    ensures s >= 0x80 || s == 0x2A || s == 0x36 ==> Typed(l, shift, es + [Key(s)]) == Typed(l, shift, es)
    ensures s < 0x80 && s != 0x2A && s != 0x36 ==>
              var ch := if Held(shift, es) then l.shifted[s] else l.plain[s];
              Typed(l, shift, es + [Key(s)]) == if ch == 0 then Typed(l, shift, es) else Typed(l, shift, es) + [ch]
    decreases |es|
  {
    if es == [] {
      assert [] + [Consumer] == [Consumer] && [] + [Key(s)] == [Key(s)];
      assert [Consumer][1..] == [] && [Key(s)][1..] == [];
    } else {
      HeldAfterFirst(shift, es);
      TypesByLastShift(l, if es[0].Key? then ShiftAfter(shift, es[0].scancode) else shift, es[1..], s);
      assert (es + [Consumer])[1..] == es[1..] + [Consumer] && (es + [Key(s)])[1..] == es[1..] + [Key(s)];
    }
  }

  /** `a` is `b` with some characters left out. */
  predicate Subsequence(a: seq<u8>, b: seq<u8>) {
    if b == [] then a == []
    else Subsequence(a, b[1..]) || (a != [] && a[0] == b[0] && Subsequence(a[1..], b[1..]))
  }

  lemma {:induction false} SubsequenceJoin(a: seq<u8>, b: seq<u8>, c: seq<u8>, d: seq<u8>)
    requires Subsequence(a, b) && Subsequence(c, d)
    ensures Subsequence(a + c, b + d)
    decreases |b|
  {
    if b == [] {
      assert a + c == c && b + d == d;
    } else {
      assert (b + d)[1..] == b[1..] + d;
      if Subsequence(a, b[1..]) {
        SubsequenceJoin(a, b[1..], c, d);
      } else {
        SubsequenceJoin(a[1..], b[1..], c, d);
        assert (a + c)[1..] == a[1..] + c;
      }
    }
  }

  /** From k to t, `typed` was typed. What was accepted is `typed`, in order, with exactly as many
      characters left out as were counted as dropped. Nothing accepted or returned is ever taken back. */
  ghost predicate Accounts(k: Kbd, t: Kbd, typed: seq<u8>) {
    && k.accepted <= t.accepted && k.returned <= t.returned && k.dropped <= t.dropped
    && |t.accepted| + t.dropped == |k.accepted| + k.dropped + |typed|
    && Subsequence(t.accepted[|k.accepted|..], typed)
  }

  lemma AccountsJoin(k: Kbd, n: Kbd, t: Kbd, a: seq<u8>, b: seq<u8>)
    requires Accounts(k, n, a) && Accounts(n, t, b)
    ensures Accounts(k, t, a + b)
  {
    SubsequenceJoin(n.accepted[|k.accepted|..], a, t.accepted[|n.accepted|..], b);
    assert t.accepted[|k.accepted|..] == n.accepted[|k.accepted|..] + t.accepted[|n.accepted|..];
  }

  /** When nothing is dropped, exactly what was typed is accepted. */
  lemma {:induction false} WholeSubsequence(a: seq<u8>, b: seq<u8>)
    requires Subsequence(a, b)
    ensures |a| <= |b| && (|a| == |b| ==> a == b)
    decreases |b|
  {
    if b != [] {
      if Subsequence(a, b[1..]) { WholeSubsequence(a, b[1..]); } else { WholeSubsequence(a[1..], b[1..]); }
    }
  }

  lemma StepAccounts(k: Kbd, l: Layout, scancode: u8)
    requires Inv(k) && l.Ok()
    ensures var ch := Translate(l, k.shift, scancode);
            Accounts(k, Irq(k, l, scancode), if ch == 0 then [] else [ch])
    ensures Accounts(k, Consume(k), [])
  {
    var t := Irq(k, l, scancode);
    assert t.accepted[|k.accepted|..] == [] || t.accepted[|k.accepted|..] == [Translate(l, k.shift, scancode)];
  }

  /** Under every interleaving: what getchar returned is a prefix, in order, of what was accepted; at most
      255 characters are pending; and everything typed is accounted for. */
  lemma EveryInterleaving(k: Kbd, l: Layout, es: seq<Event>)
    requires l.Ok() && Inv(k)
    ensures var t := Run(k, l, es);
            && t.returned <= t.accepted && |t.accepted| - |t.returned| <= 255
            && Accounts(k, t, Typed(l, k.shift, es))
            && (t.dropped == k.dropped ==> t.accepted == k.accepted + Typed(l, k.shift, es))
  {
    RunAccounts(k, l, es);
    WholeSubsequence(Run(k, l, es).accepted[|k.accepted|..], Typed(l, k.shift, es));
  }

  lemma {:induction false} RunAccounts(k: Kbd, l: Layout, es: seq<Event>)
    requires l.Ok() && Inv(k)
    ensures Accounts(k, Run(k, l, es), Typed(l, k.shift, es))
    decreases |es|
  {
    if es == [] {
      assert k.accepted[|k.accepted|..] == [];
    } else {
      match es[0]
      case Key(s) =>
        StepAccounts(k, l, s);
        IrqKeepsInv(k, l, s);
        var ch := Translate(l, k.shift, s);
        RunAccounts(Irq(k, l, s), l, es[1..]);
        AccountsJoin(k, Irq(k, l, s), Run(k, l, es), if ch == 0 then [] else [ch], Typed(l, ShiftAfter(k.shift, s), es[1..]));
      case Consumer =>
        StepAccounts(k, l, 0);
        ConsumeKeepsInv(k);
        RunAccounts(Consume(k), l, es[1..]);
        AccountsJoin(k, Consume(k), Run(k, l, es), [], Typed(l, k.shift, es[1..]));
        assert [] + Typed(l, k.shift, es[1..]) == Typed(l, k.shift, es);
    }
  }

  /** Left alone, the consumer needs three steps to return the oldest pending character. */
  lemma ConsumerReturnsOldest(k: Kbd)
    requires Inv(k) && k.pc == Test && |k.returned| < |k.accepted|
    ensures Consume(Consume(Consume(k))).returned == k.returned + [k.accepted[|k.returned|]]
  {
  }

  // ---- the code -----------------------------------------------------------------------------------

  class Driver {
    const layout: Layout
    const buffer: array<u8>
    var head: nat
    var tail: nat
    var shiftHeld: bool
    // the consumer inside keyboard_getchar
    var pc: Pc
    var c: u8
    ghost var accepted: seq<u8>
    ghost var returned: seq<u8>
    ghost var dropped: nat

    ghost function State(): Kbd
      reads this, buffer
    {
      Kbd(buffer[..], head, tail, shiftHeld, pc, c, accepted, returned, dropped)
    }

    ghost predicate Valid()
      reads this, buffer
    {
      layout.Ok() && Inv(State())
    }

    /** keyboard_init */
    constructor Init(layout: Layout)
      requires layout.Ok()
      ensures Valid() && fresh(buffer) && State() == Initial(buffer[..])
    {
      this.layout := layout;
      buffer := new u8[SIZE];
      head, tail, shiftHeld, pc, c := 0, 0, false, Test, 0;
      accepted, returned, dropped := [], [], 0;
    }

    /** keyboard_irq_handler, for a scan code read from the data port. */
    method IrqHandler(scancode: u8)
      requires Valid()
      modifies `head, `shiftHeld, `accepted, `dropped, buffer
      ensures Valid() && State() == Irq(old(State()), layout, scancode)
    {
      IrqKeepsInv(State(), layout, scancode);
      if scancode == 0x2A || scancode == 0x36 {
        shiftHeld := true;
        return;
      }
      if scancode == 0xAA || scancode == 0xB6 {
        shiftHeld := false;
        return;
      }
      if scancode >= 0x80 { return; }
      var ch := if shiftHeld then layout.shifted[scancode] else layout.plain[scancode];
      if ch == 0 { return; }
      PushByte(ch);
    }

    method PushByte(ch: u8)
      requires Valid()
      modifies `head, `accepted, `dropped, buffer
      ensures State() == Push(old(State()), ch)
    {
      var next := (head + 1) % SIZE;
      if next != tail {
        buffer[head] := ch;
        head := next;
        accepted := accepted + [ch];
      } else {
        dropped := dropped + 1;
      }
    }

    /** One step of keyboard_getchar; `done` when it returns, with the character in `c`. */
    method GetcharStep() returns (done: bool)
      requires Valid()
      modifies `tail, `pc, `c, `returned
      ensures Valid() && State() == Consume(old(State())) && done == (old(pc) == Advance)
      ensures done ==> returned == old(returned) + [c]
    {
      ConsumeKeepsInv(State());
      done := false;
      match pc {
        case Test =>
          if tail != head { pc := Fetch; }
        case Fetch =>
          c := buffer[tail];
          pc := Advance;
        case Advance =>
          tail := (tail + 1) % SIZE;
          pc := Test;
          returned := returned + [c];
          done := true;
      }
    }

    /** keyboard_has_data */
    method HasData() returns (b: bool)
      requires Valid()
      ensures b <==> |returned| < |accepted|
    {
      b := tail != head;
    }
  }
}
