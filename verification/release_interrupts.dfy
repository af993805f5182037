/**
 * The release draft's interrupt layer: a 256-entry IDT, a table of
 * registered handlers, the two 8259 PICs remapped to vectors 32-47 and
 * fully masked at start, per-IRQ unmasking when a handler is registered,
 * and one common entry that acknowledges IRQs and dispatches to the
 * registered handler.
 *
 * Port I/O, `lidt` and `sti` become events appended to a trace, in the order
 * the code issues them; the handler call becomes a `Dispatch` event.
 */
module ReleaseInterrupts {
  import opened Common
  import opened Idt

  /** The identity of a handler function (`isr_t`); `None` in the table is the null pointer. */
  type HandlerId = nat

  /** What the interrupt layer does to the outside world, in order. */
  datatype Event =
    | Out(write: PortWrite)
    | LoadIdt(ptr: IdtPtr)
    | EnableInterrupts
    | Dispatch(handler: HandlerId, vector: nat)

  /** The port writes of a sequence, as trace events. */
  function Outs(ws: seq<PortWrite>): (r: seq<Event>)
    ensures |r| == |ws|
    ensures forall i | 0 <= i < |ws| :: r[i] == Out(ws[i])
  {
    seq(|ws|, i requires 0 <= i < |ws| => Out(ws[i]))
  }

  /** Vector `n` is one of the sixteen remapped IRQs. */
  predicate IsIrq(n: nat) {
    IRQ_BASE <= n < IRQ_END
  }

  /** The data port of the PIC that owns IRQ vector `n`. */
  function MaskPort(n: nat): (port: u16)
    requires IsIrq(n)
    ensures port == PIC1_DATA <==> n < SLAVE_BASE
    ensures port == PIC1_DATA || port == PIC2_DATA
  {
    if n < SLAVE_BASE then PIC1_DATA else PIC2_DATA
  }

  /** The line of IRQ vector `n` on its own PIC. */
  function Line(n: nat): (k: nat)
    requires IsIrq(n)
    ensures k < 8
    ensures n == (if n < SLAVE_BASE then IRQ_BASE else SLAVE_BASE) + k
  {
    if n < SLAVE_BASE then n - IRQ_BASE else n - SLAVE_BASE
  }

  /** Whether line `k` is masked (inhibited) in a mask byte. */
  predicate LineMasked(mask: bv8, k: nat)
    requires k < 8
  {
    mask & (1 << k) != 0
  }

  /** The mask after unmasking vector `n`: its line's bit cleared. */
  function Unmask(mask: bv8, n: nat): bv8
    requires IsIrq(n)
  {
    mask & !(1 << Line(n))
  }

  /** The mask after masking vector `n`: its line's bit set. */
  function Mask(mask: bv8, n: nat): bv8
    requires IsIrq(n)
  {
    mask | (1 << Line(n))
  }

  /** The mask bit of line `k`. */
  lemma LineBit(k: nat)
    requires k < 8
    ensures (1 as bv8) << k == (if k == 0 then 1 else if k == 1 then 2 else if k == 2 then 4 else if k == 3 then 8
      else if k == 4 then 16 else if k == 5 then 32 else if k == 6 then 64 else 128)
  {
  }

  /** Unmasking clears exactly the vector's own line and leaves the other seven as they were. */
  lemma UnmaskOnlyLine(mask: bv8, n: nat, k: nat)
    requires IsIrq(n) && k < 8
    ensures LineMasked(Unmask(mask, n), k) <==> k != Line(n) && LineMasked(mask, k)
  {
    LineBit(Line(n));
    LineBit(k);
  }

  /** Masking sets exactly the vector's own line and leaves the other seven as they were. */
  lemma MaskOnlyLine(mask: bv8, n: nat, k: nat)
    requires IsIrq(n) && k < 8
    ensures LineMasked(Mask(mask, n), k) <==> k == Line(n) || LineMasked(mask, k)
  {
    LineBit(Line(n));
    LineBit(k);
  }

  /** Unregistering undoes registering on a line that was masked, and the other way round. */
  lemma MaskRoundTrip(mask: bv8, n: nat)
    requires IsIrq(n)
    ensures LineMasked(mask, Line(n)) ==> Mask(Unmask(mask, n), n) == mask
    ensures !LineMasked(mask, Line(n)) ==> Unmask(Mask(mask, n), n) == mask
  {
  }

  /** Distinct IRQ vectors own distinct (PIC, line) pairs: a mask change reaches one IRQ only. */
  lemma IrqRoutingInjective(m: nat, n: nat)
    requires IsIrq(m) && IsIrq(n)
    requires MaskPort(m) == MaskPort(n) && Line(m) == Line(n)
    ensures m == n
  {
  }

  /**
   * The acknowledgement the common entry sends for vector `n`: for an IRQ, an
   * EOI to the slave when the slave raised it, then always an EOI to the master;
   * nothing for a CPU exception or software interrupt.
   */
  function EoiWrites(n: nat): (w: seq<PortWrite>)
    ensures !IsIrq(n) ==> w == []
    ensures IsIrq(n) ==> |w| >= 1 && w[|w| - 1] == PortWrite(PIC1_COMMAND, PIC_EOI)
    ensures IsIrq(n) ==> (PortWrite(PIC2_COMMAND, PIC_EOI) in w <==> n >= SLAVE_BASE)
  {
    if !IsIrq(n) then []
    else if n >= SLAVE_BASE then [PortWrite(PIC2_COMMAND, PIC_EOI), PortWrite(PIC1_COMMAND, PIC_EOI)]
    else [PortWrite(PIC1_COMMAND, PIC_EOI)]
  }

  /** The IDT, the handler table, the PIC masks and the trace of the outside effects. */
  class InterruptController {
    const idt: array<Gate>
    const handlers: array<Option<HandlerId>>
    var idtp: IdtPtr
    /** The interrupt mask registers the two PICs hold (what `inb` on their data ports reads). */
    var masterMask: bv8
    var slaveMask: bv8
    var trace: seq<Event>

    ghost predicate Valid()
      reads this
    {
      idt.Length == IDT_ENTRIES && handlers.Length == IDT_ENTRIES
    }

    /** The mask byte held by the PIC behind data port `port`. */
    function MaskAt(port: u16): bv8
      requires port == PIC1_DATA || port == PIC2_DATA
      reads this
    {
      if port == PIC1_DATA then masterMask else slaveMask
    }

    /** The static tables start zeroed; the PIC masks are whatever the firmware left. */
    constructor (master: bv8, slave: bv8)
      ensures Valid() && fresh(idt) && fresh(handlers)
      ensures forall v | 0 <= v < IDT_ENTRIES :: idt[v] == ZeroGate && handlers[v] == None
      ensures masterMask == master && slaveMask == slave && trace == []
    {
      idt := new Gate[IDT_ENTRIES](_ => ZeroGate);
      handlers := new Option<HandlerId>[IDT_ENTRIES](_ => None);
      idtp := IdtPtr(0, 0);
      masterMask := master;
      slaveMask := slave;
      trace := [];
    }

    /** `outb` to a PIC data port after initialisation: the byte becomes that PIC's mask. */
    method WriteMask(port: u16, value: bv8)
      requires port == PIC1_DATA || port == PIC2_DATA
      modifies this
      ensures trace == old(trace) + [Out(PortWrite(port, value))]
      ensures MaskAt(port) == value
      ensures port == PIC1_DATA ==> slaveMask == old(slaveMask)
      ensures port == PIC2_DATA ==> masterMask == old(masterMask)
      ensures idtp == old(idtp)
    {
      trace := trace + [Out(PortWrite(port, value))];
      if port == PIC1_DATA {
        masterMask := value;
      } else {
        slaveMask := value;
      }
    }

    /** `idt_set_gate`: entry `num` now points at `base`; no other entry changes. */
    method SetGate(num: byte, base: u32, sel: u16, flags: byte)
      requires Valid()
      modifies idt
      ensures idt[..] == old(idt[..])[num := MakeGate(base, sel, flags)]
      ensures GateBase(idt[num]) == base
    {
      idt[num] := MakeGate(base, sel, flags);
    }

    /** `pic_initialize`: the remapping sequence, ending with every line of both PICs masked. */
    method PicInitialize()
      modifies this
      ensures trace == old(trace) + Outs(PicRemapSequence(0xFF))
      ensures masterMask == 0xFF && slaveMask == 0xFF
      ensures idtp == old(idtp)
    {
      trace := trace + Outs(PicRemapSequence(0xFF));
      masterMask := 0xFF;
      slaveMask := 0xFF;
    }

    /** The two `memset` calls: every gate and every handler slot zero. */
    method ClearTables()
      requires Valid()
      modifies idt, handlers
      ensures forall v | 0 <= v < IDT_ENTRIES :: idt[v] == ZeroGate && handlers[v] == None
    {
      for i := 0 to IDT_ENTRIES
        invariant forall v | 0 <= v < i :: idt[v] == ZeroGate
      {
        idt[i] := ZeroGate;
      }
      for i := 0 to IDT_ENTRIES
        invariant forall v | 0 <= v < IDT_ENTRIES :: idt[v] == ZeroGate
        invariant forall v | 0 <= v < i :: handlers[v] == None
      {
        handlers[i] := None;
      }
    }

    /** The four `idt_set_gate` calls on a cleared table. */
    method InstallGates(stubs: Stubs)
      requires Valid()
      requires forall v | 0 <= v < IDT_ENTRIES :: idt[v] == ZeroGate
      modifies idt
      ensures forall v | 0 <= v < IDT_ENTRIES :: idt[v] == InitialGate(stubs, v)
    {
      ghost var zero := idt[..];
      SetGate(0, stubs.isr0, KERNEL_CODE_SELECTOR, INTERRUPT_GATE_FLAGS);
      SetGate(1, stubs.isr1, KERNEL_CODE_SELECTOR, INTERRUPT_GATE_FLAGS);
      SetGate(32, stubs.irq0, KERNEL_CODE_SELECTOR, INTERRUPT_GATE_FLAGS);
      SetGate(33, stubs.irq1, KERNEL_CODE_SELECTOR, INTERRUPT_GATE_FLAGS);
      forall v | 0 <= v < IDT_ENTRIES
        ensures idt[v] == InitialGate(stubs, v)
      {
        assert idt[v] == idt[..][v];
        assert zero[v] == ZeroGate;
      }
    }

    /**
     * `interrupts_initialize`: point the IDT pointer at the table, clear both
     * tables, install the four stub gates, remap the PICs with every line
     * masked, load the IDT, enable interrupts, and report success.
     */
    method Initialize(stubs: Stubs, tableAddress: u32) returns (ok: bool)
      requires Valid()
      modifies this, idt, handlers
      ensures Valid() && ok
      ensures idtp == TablePointer(tableAddress)
      ensures forall v | 0 <= v < IDT_ENTRIES :: idt[v] == InitialGate(stubs, v)
      ensures forall v | 0 <= v < IDT_ENTRIES :: handlers[v] == None
      ensures masterMask == 0xFF && slaveMask == 0xFF
      ensures trace == old(trace) + Outs(PicRemapSequence(0xFF)) + [LoadIdt(idtp), EnableInterrupts]
    {
      idtp := TablePointer(tableAddress);
      ClearTables();
      InstallGates(stubs);
      PicInitialize();
      trace := trace + [LoadIdt(idtp), EnableInterrupts];
      ok := true;
    }

    /**
     * `register_interrupt_handler`: store the handler; for an IRQ vector, read
     * its PIC's mask, clear the vector's line and write the mask back.
     */
    method Register(n: byte, handler: Option<HandlerId>)
      requires Valid()
      modifies this, handlers
      ensures handlers[..] == old(handlers[..])[n := handler]
      ensures IsIrq(n) ==> trace == old(trace) + [Out(PortWrite(MaskPort(n), Unmask(old(MaskAt(MaskPort(n))), n)))]
      ensures IsIrq(n) ==> MaskAt(MaskPort(n)) == Unmask(old(MaskAt(MaskPort(n))), n)
      ensures IsIrq(n) && n < SLAVE_BASE ==> slaveMask == old(slaveMask)
      ensures IsIrq(n) && n >= SLAVE_BASE ==> masterMask == old(masterMask)
      ensures !IsIrq(n) ==> trace == old(trace) && masterMask == old(masterMask) && slaveMask == old(slaveMask)
      ensures idtp == old(idtp)
    {
      handlers[n] := handler;
      if IRQ_BASE <= n < IRQ_END {
        var port := MaskPort(n);
        var mask := MaskAt(port);
        WriteMask(port, Unmask(mask, n));
      }
    }

    /**
     * `unregister_interrupt_handler`: clear the handler; for an IRQ vector,
     * set the vector's line in its PIC's mask.
     */
    method Unregister(n: byte)
      requires Valid()
      modifies this, handlers
      ensures handlers[..] == old(handlers[..])[n := None]
      ensures IsIrq(n) ==> trace == old(trace) + [Out(PortWrite(MaskPort(n), Mask(old(MaskAt(MaskPort(n))), n)))]
      ensures IsIrq(n) ==> MaskAt(MaskPort(n)) == Mask(old(MaskAt(MaskPort(n))), n)
      ensures IsIrq(n) && n < SLAVE_BASE ==> slaveMask == old(slaveMask)
      ensures IsIrq(n) && n >= SLAVE_BASE ==> masterMask == old(masterMask)
      ensures !IsIrq(n) ==> trace == old(trace) && masterMask == old(masterMask) && slaveMask == old(slaveMask)
      ensures idtp == old(idtp)
    {
      handlers[n] := None;
      if IRQ_BASE <= n < IRQ_END {
        var port := MaskPort(n);
        var mask := MaskAt(port);
        WriteMask(port, Mask(mask, n));
      }
    }

    /**
     * `interrupt_handler`, the common entry every stub jumps to: acknowledge an
     * IRQ at the PICs first, then call the handler registered for the vector,
     * if any. The masks and the tables do not change.
     */
    method InterruptHandler(intNo: u32)
      requires Valid() && intNo < IDT_ENTRIES
      modifies this
      ensures trace == old(trace) + Outs(EoiWrites(intNo))
        + (if handlers[intNo].Some? then [Dispatch(handlers[intNo].value, intNo)] else [])
      ensures masterMask == old(masterMask) && slaveMask == old(slaveMask) && idtp == old(idtp)
    {
      if IRQ_BASE <= intNo < IRQ_END {
        if intNo >= SLAVE_BASE {
          trace := trace + [Out(PortWrite(PIC2_COMMAND, PIC_EOI))];
        }
        trace := trace + [Out(PortWrite(PIC1_COMMAND, PIC_EOI))];
      }
      var h := handlers[intNo];
      if h.Some? {
        trace := trace + [Dispatch(h.value, intNo)];
      }
    }
  }
}
