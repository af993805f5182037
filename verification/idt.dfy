/**
 * What both interrupt drafts share: the 8-byte IDT gate layout, the IDT
 * pointer, port writes, and the 8259 PIC remapping sequence (IRQ 0-7 to
 * vectors 0x20-0x27, IRQ 8-15 to 0x28-0x2F, slave on IRQ 2, 8086 mode).
 */
module Idt {
  import opened Common

  const IDT_ENTRIES: nat := 256
  /** `sizeof(struct idt_entry)`: the packed entry is 2 + 2 + 1 + 1 + 2 bytes. */
  const GATE_SIZE: nat := 8
  /** Kernel code segment selector and the flags of a present ring-0 32-bit interrupt gate. */
  const KERNEL_CODE_SELECTOR: u16 := 0x08
  const INTERRUPT_GATE_FLAGS: byte := 0x8E

  const PIC1_COMMAND: u16 := 0x20
  const PIC1_DATA: u16 := 0x21
  const PIC2_COMMAND: u16 := 0xA0
  const PIC2_DATA: u16 := 0xA1
  /** The end-of-interrupt command byte. */
  const PIC_EOI: bv8 := 0x20

  /** The first vector the remapped PIC delivers, and one past the last. */
  const IRQ_BASE: nat := 32
  const IRQ_END: nat := 48
  /** Vectors from here on come from the slave PIC. */
  const SLAVE_BASE: nat := 40

  /** One IDT entry: the handler address split in two halves, the selector, a zero byte, the flags. */
  datatype Gate = Gate(baseLow: u16, selector: u16, zero: byte, flags: byte, baseHigh: u16)

  /** An all-zero entry: what `memset(&idt, 0, ...)` and static zero-initialisation leave. */
  const ZeroGate: Gate := Gate(0, 0, 0, 0, 0)

  /** The IDT pointer `lidt` loads: the table's last byte offset and its address. */
  datatype IdtPtr = IdtPtr(limit: u16, base: u32)

  /** One `outb(port, value)`. */
  datatype PortWrite = PortWrite(port: u16, value: bv8)

  /** The addresses of the assembly entry stubs `isr0`, `isr1`, `irq0`, `irq1`. */
  datatype Stubs = Stubs(isr0: u32, isr1: u32, irq0: u32, irq1: u32)

  /** The handler address the CPU reassembles from a gate. */
  function GateBase(g: Gate): int {
    g.baseHigh * 0x1_0000 + g.baseLow
  }

  /**
   * The entry `idt_set_gate` writes: the low and high 16 bits of `base`,
   * the selector, zero, the flags.
   */
  function MakeGate(base: u32, sel: u16, flags: byte): (g: Gate)
    ensures GateBase(g) == base
    ensures g.selector == sel && g.flags == flags && g.zero == 0
  {
    Gate(base % 0x1_0000, sel, 0, flags, base / 0x1_0000)
  }

  /** The IDT pointer both drafts build: limit 8 * 256 - 1, base the table's address. */
  function TablePointer(tableAddress: u32): (p: IdtPtr)
    ensures p.limit + 1 == GATE_SIZE * IDT_ENTRIES && p.base == tableAddress
  {
    IdtPtr((GATE_SIZE * IDT_ENTRIES - 1) as u16, tableAddress)
  }

  /** Whether a gate for vector `v` is installed by the initialisation (the stubs 0, 1, 32, 33). */
  predicate Installed(v: nat) {
    v == 0 || v == 1 || v == 32 || v == 33
  }

  /** The gate the initialisation leaves at vector `v`. */
  function InitialGate(stubs: Stubs, v: nat): (g: Gate)
    ensures Installed(v) ==> g.selector == KERNEL_CODE_SELECTOR && g.flags == INTERRUPT_GATE_FLAGS
    ensures v == 0 ==> GateBase(g) == stubs.isr0
    ensures v == 1 ==> GateBase(g) == stubs.isr1
    ensures v == 32 ==> GateBase(g) == stubs.irq0
    ensures v == 33 ==> GateBase(g) == stubs.irq1
    ensures !Installed(v) ==> g == ZeroGate
  {
    if v == 0 then MakeGate(stubs.isr0, KERNEL_CODE_SELECTOR, INTERRUPT_GATE_FLAGS)
    else if v == 1 then MakeGate(stubs.isr1, KERNEL_CODE_SELECTOR, INTERRUPT_GATE_FLAGS)
    else if v == 32 then MakeGate(stubs.irq0, KERNEL_CODE_SELECTOR, INTERRUPT_GATE_FLAGS)
    else if v == 33 then MakeGate(stubs.irq1, KERNEL_CODE_SELECTOR, INTERRUPT_GATE_FLAGS)
    else ZeroGate
  }

  /**
   * The PIC initialisation: ICW1 (0x11) to both command ports, ICW2 vector
   * offsets 0x20 and 0x28, ICW3 cascade wiring 0x04 and 0x02, ICW4 8086 mode,
   * then OCW1 writes `finalMask` to both data ports.
   */
  function PicRemapSequence(finalMask: bv8): (w: seq<PortWrite>)
    ensures |w| == 10
    ensures w[8] == PortWrite(PIC1_DATA, finalMask) && w[9] == PortWrite(PIC2_DATA, finalMask)
    ensures w[2].value as int == IRQ_BASE && w[3].value as int == SLAVE_BASE
  {
    [ PortWrite(PIC1_COMMAND, 0x11), PortWrite(PIC2_COMMAND, 0x11),
      PortWrite(PIC1_DATA, 0x20), PortWrite(PIC2_DATA, 0x28),
      PortWrite(PIC1_DATA, 0x04), PortWrite(PIC2_DATA, 0x02),
      PortWrite(PIC1_DATA, 0x01), PortWrite(PIC2_DATA, 0x01),
      PortWrite(PIC1_DATA, finalMask), PortWrite(PIC2_DATA, finalMask) ]
  }
}
