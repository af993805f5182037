/**
 * The first draft's interrupt layer: a 256-entry IDT with four stub gates,
 * the PICs remapped to vectors 32-47 with every line left unmasked, a timer
 * tick counter, a panic on CPU exceptions, and a fixed IRQ dispatch (timer on
 * IRQ 0, keyboard on IRQ 1).
 *
 * Port writes, `lidt`, `sti` and the call into the keyboard driver become
 * events appended to a trace in issue order; a kernel panic is returned as the
 * message it would print.
 */
module KernelInterrupts {
  import opened Common
  import opened Idt

  /** What the interrupt layer does to the outside world, in order. */
  datatype Event =
    | Out(write: PortWrite)
    | LoadIdt(ptr: IdtPtr)
    | EnableInterrupts
    | KeyboardIrq

  /** The port writes of a sequence, as trace events. */
  function Outs(ws: seq<PortWrite>): (r: seq<Event>)
    ensures |r| == |ws|
    ensures forall i | 0 <= i < |ws| :: r[i] == Out(ws[i])
  {
    seq(|ws|, i requires 0 <= i < |ws| => Out(ws[i]))
  }

  /**
   * The acknowledgement `irq_handler` sends for vector `n`: an EOI to the
   * slave for every vector from 40 on, then always one to the master. Unlike
   * the release draft, nothing checks that `n` is an IRQ at all.
   */
  function IrqEoi(n: nat): (w: seq<PortWrite>)
    ensures |w| >= 1 && w[|w| - 1] == PortWrite(PIC1_COMMAND, PIC_EOI)
    ensures PortWrite(PIC2_COMMAND, PIC_EOI) in w <==> n >= SLAVE_BASE
  {
    (if n >= SLAVE_BASE then [PortWrite(PIC2_COMMAND, PIC_EOI)] else [])
      + [PortWrite(PIC1_COMMAND, PIC_EOI)]
  }

  /**
   * `int_to_string`: the decimal text of `num` followed by a NUL, built
   * digit by digit from the least significant end, then a '-' for a negative
   * value, then reversed in place. The cells after the NUL are untouched.
   */
  method IntToString(num: int, str: array<char>)
    requires IsInt(num) && num != INT_MIN
    requires |SignedDecimal(num)| < str.Length
    modifies str
    ensures str[..|SignedDecimal(num)|] == SignedDecimal(num)
    ensures str[|SignedDecimal(num)|] == '\0'
    ensures str[|SignedDecimal(num)| + 1..] == old(str[|SignedDecimal(num)| + 1..])
  {
    if num == 0 {
      ghost var t := SignedDecimal(num);
      assert t == ['0'] && |t| == 1;
      WriteZero(str);
      assert str[..|t|] == t && str[|t|] == '\0' && str[|t| + 1..] == old(str[|t| + 1..]);
      return;
    }
    var i := WriteSignedReversed(num, str);
    SameFrom(str[..], old(str[..]), i, i + 1);
    TerminateReversed(str, i, SignedDecimal(num));
  }

  /** The zero case of `int_to_string`: "0" and the NUL. */
  method WriteZero(str: array<char>)
    requires 2 <= str.Length
    modifies str
    ensures str[..1] == ['0'] && str[1] == '\0' && str[2..] == old(str[2..])
  {
    var i := 0;
    str[i] := '0';
    i := i + 1;
    str[i] := '\0';
  }

  /** The digits of `num` least significant first, then a '-' when it is negative. */
  method WriteSignedReversed(num: int, str: array<char>) returns (i: nat)
    requires num != 0
    requires |SignedDecimal(num)| < str.Length
    modifies str
    ensures i == |SignedDecimal(num)|
    ensures str[..i] == Reverse(SignedDecimal(num))
    ensures str[i..] == old(str[i..])
  {
    var n := num;
    var negative := false;
    if n < 0 {
      negative := true;
      n := -n;
    }
    SignedDigitsReversed(num);
    i := WriteDigitsReversed(n, str);
    if negative {
      str[i] := '-';
      i := i + 1;
    }
  }

  /** The NUL after the text, then the in-place reversal that puts the text in reading order. */
  method TerminateReversed(str: array<char>, i: nat, ghost text: seq<char>)
    requires i < str.Length && i == |text|
    requires str[..i] == Reverse(text)
    modifies str
    ensures str[..i] == text && str[i] == '\0'
    ensures str[i + 1..] == old(str[i + 1..])
  {
    str[i] := '\0';
    assert str[..i] == Reverse(text);
    ReverseInPlace(str, i);
    assert str[..i] == text by {
      assert forall k | 0 <= k < i :: str[k] == Reverse(Reverse(text))[k];
    }
    assert str[i + 1..] == str[i..][1..];
  }

  /** The division loop of `int_to_string`: the digits of `n`, least significant first. */
  method WriteDigitsReversed(n: nat, str: array<char>) returns (i: nat)
    requires |DigitsReversed(n)| < str.Length
    modifies str
    ensures i == |DigitsReversed(n)|
    ensures str[..i] == DigitsReversed(n)
    ensures str[i..] == old(str[i..])
  {
    i := 0;
    var m := n;
    while m != 0
      invariant i + |DigitsReversed(m)| == |DigitsReversed(n)|
      invariant str[..i] + DigitsReversed(m) == DigitsReversed(n)
      invariant str[i..] == old(str[i..])
      decreases m
    {
      var rem := m % 10;
      str[i] := DigitChar(rem);
      i := i + 1;
      m := m / 10;
    }
  }

  /** The IDT, the IDT pointer, the tick counter and the trace of outside effects. */
  class InterruptController {
    const idt: array<Gate>
    var idtp: IdtPtr
    var tick: u32
    var trace: seq<Event>

    ghost predicate Valid()
      reads this
    {
      idt.Length == IDT_ENTRIES
    }

    /** The static table and `tick` start at zero. */
    constructor ()
      ensures Valid() && fresh(idt)
      ensures forall v | 0 <= v < IDT_ENTRIES :: idt[v] == ZeroGate
      ensures tick == 0 && trace == []
    {
      idt := new Gate[IDT_ENTRIES](_ => ZeroGate);
      idtp := IdtPtr(0, 0);
      tick := 0;
      trace := [];
    }

    /** `idt_set_gate`: entry `num` now points at `base`; no other entry changes. */
    method SetGate(num: byte, base: u32, sel: u16, flags: byte)
      requires Valid()
      modifies idt
      ensures idt[..] == old(idt[..])[num := MakeGate(base, sel, flags)]
      ensures GateBase(idt[num]) == base
    {
      idt[num] := MakeGate(base, sel, flags);
    }

    /** `pic_init`: the remapping sequence, ending with every line of both PICs unmasked. */
    method PicInit()
      modifies this
      ensures trace == old(trace) + Outs(PicRemapSequence(0x00))
      ensures idtp == old(idtp) && tick == old(tick)
    {
      trace := trace + Outs(PicRemapSequence(0x00));
    }

    /** The `memset` of the table: every gate zero. */
    method ClearTable()
      requires Valid()
      modifies idt
      ensures forall v | 0 <= v < IDT_ENTRIES :: idt[v] == ZeroGate
    {
      for i := 0 to IDT_ENTRIES
        invariant forall v | 0 <= v < i :: idt[v] == ZeroGate
      {
        idt[i] := ZeroGate;
      }
    }

    /** The four `idt_set_gate` calls on a cleared table. */
    method InstallGates(stubs: Stubs)
      requires Valid()
      requires forall v | 0 <= v < IDT_ENTRIES :: idt[v] == ZeroGate
      modifies idt
      ensures forall v | 0 <= v < IDT_ENTRIES :: idt[v] == InitialGate(stubs, v)
    {
      ghost var zero := idt[..];
      SetGate(0, stubs.isr0, KERNEL_CODE_SELECTOR, INTERRUPT_GATE_FLAGS);
      SetGate(1, stubs.isr1, KERNEL_CODE_SELECTOR, INTERRUPT_GATE_FLAGS);
      SetGate(32, stubs.irq0, KERNEL_CODE_SELECTOR, INTERRUPT_GATE_FLAGS);
      SetGate(33, stubs.irq1, KERNEL_CODE_SELECTOR, INTERRUPT_GATE_FLAGS);
      forall v | 0 <= v < IDT_ENTRIES
        ensures idt[v] == InitialGate(stubs, v)
      {
        assert idt[v] == idt[..][v];
        assert zero[v] == ZeroGate;
      }
    }

    /**
     * `interrupts_init`: point the IDT pointer at the table, clear it, remap
     * the PICs with every line unmasked, install the four stub gates, load the
     * IDT and enable interrupts.
     */
    method InterruptsInit(stubs: Stubs, tableAddress: u32)
      requires Valid()
      modifies this, idt
      ensures Valid()
      ensures idtp == TablePointer(tableAddress)
      ensures forall v | 0 <= v < IDT_ENTRIES :: idt[v] == InitialGate(stubs, v)
      ensures trace == old(trace) + Outs(PicRemapSequence(0x00)) + [LoadIdt(idtp), EnableInterrupts]
      ensures tick == old(tick)
    {
      idtp := TablePointer(tableAddress);
      ClearTable();
      PicInit();
      InstallGates(stubs);
      trace := trace + [LoadIdt(idtp), EnableInterrupts];
    }

    /** `timer_handler`: the 32-bit tick counter advances by one, wrapping at 2^32. */
    method TimerHandler()
      modifies this
      ensures tick == (old(tick) + 1) % U32_MOD
      ensures trace == old(trace) && idtp == old(idtp)
    {
      tick := (tick + 1) % U32_MOD;
    }

    /**
     * `irq_handler`: acknowledge at the PICs, then dispatch on the unsigned
     * difference `int_no - 32`: 0 runs the timer handler, 1 the keyboard
     * driver, anything else nothing. The wrap of the subtraction never makes a
     * vector below 32 look like the timer or the keyboard.
     */
    method IrqHandler(intNo: u32)
      modifies this
      ensures trace == old(trace) + Outs(IrqEoi(intNo)) + (if intNo == 33 then [KeyboardIrq] else [])
      ensures tick == (if intNo == 32 then (old(tick) + 1) % U32_MOD else old(tick))
      ensures idtp == old(idtp)
    {
      if intNo >= SLAVE_BASE {
        trace := trace + [Out(PortWrite(PIC2_COMMAND, PIC_EOI))];
      }
      trace := trace + [Out(PortWrite(PIC1_COMMAND, PIC_EOI))];
      var irq := (intNo - 32) % U32_MOD;
      if irq == 0 {
        TimerHandler();
      } else if irq == 1 {
        trace := trace + [KeyboardIrq];
      }
    }

    /**
     * `isr_handler`: a CPU exception (vector below 32) panics with the
     * vector's decimal number as the message, read from a 12-character buffer
     * up to its NUL; any other vector is ignored.
     */
    method IsrHandler(intNo: u32) returns (panic: Option<seq<char>>)
      ensures intNo < 32 ==> panic == Some(Decimal(intNo))
      ensures intNo >= 32 ==> panic == None
    {
      panic := None;
      if intNo < 32 {
        var numStr := new char[12];
        assert |Decimal(intNo)| <= 2 by {
          if intNo >= 10 {
            assert Decimal(intNo) == Decimal(intNo / 10) + [DigitChar(intNo % 10)];
          }
        }
        IntToString(intNo, numStr);
        panic := Some(numStr[..|SignedDecimal(intNo)|]);
      }
    }
  }
}
