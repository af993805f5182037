/**
 * The final draft's terminal: the cursor and colour kept in the kernel
 * state, and the VGA text buffer at 0xB8000, given here as an array of 2000
 * cells. Every operation is proved against the screen functions of `Vga`.
 * Also the boot check of `kernel_main` on the Multiboot magic value.
 */
module FinalTerminal {
  import opened Common
  import opened CStrings
  import opened Vga

  /** The value a Multiboot-compliant loader leaves in EAX (section 3.2 of the Multiboot Specification 0.6.96). */
  const MULTIBOOT_BOOTLOADER_MAGIC: u32 := 0x2BADB002

  const INVALID_MAGIC: seq<char> := "Invalid multiboot magic number"

  /** The start of `kernel_main`: the message it panics with, or nothing when the boot magic is right. */
  function BootPanic(magic: u32): (message: Option<seq<char>>)
    ensures message.None? <==> magic == MULTIBOOT_BOOTLOADER_MAGIC
    ensures message.Some? ==> message.value == INVALID_MAGIC
  {
    if magic != MULTIBOOT_BOOTLOADER_MAGIC then Some(INVALID_MAGIC) else None
  }

  class Terminal {
    const buffer: array<u16>
    var row: nat
    var column: nat
    var color: byte

    ghost predicate Valid()
      reads this
    {
      buffer.Length == 2000 && row < 25 && column < 80
    }

    /** The screen the kernel state and the buffer make up. */
    ghost function State(): Screen
      reads this, buffer
    {
      Screen(buffer[..], row, column, color)
    }

    /** `terminal_initialize`: cursor home, light grey on black, every cell blank. */
    constructor Initialize(vgaMemory: array<u16>)
      requires vgaMemory.Length == 2000
      modifies vgaMemory
      ensures Valid() && buffer == vgaMemory
      ensures State() == Screen(Cleared(MakeColor(LightGrey, Black)), 0, 0, MakeColor(LightGrey, Black))
    {
      buffer := vgaMemory;
      row := 0;
      column := 0;
      color := MakeColor(LightGrey, Black);
      new;
      Clear(buffer, color);
    }

    /**
     * `terminal_scroll`, called once the row has reached the bottom: the
     * rows move up one, the bottom row is blanked and the row goes back one.
     */
    method Scroll()
      requires buffer.Length == 2000 && row > 0
      modifies this, buffer
      ensures buffer[..] == Scrolled(old(buffer[..]), color)
      ensures row == old(row) - 1 && column == old(column) && color == old(color)
    {
      ScrollCells(buffer, color);
      row := row - 1;
    }

    /** `terminal_putchar`: one character of output. */
    method Putchar(c: char)
      requires Valid() && IsChar8(c)
      modifies this, buffer
      ensures Valid() && State() == PutChar(old(State()), c)
    {
      if c == '\n' {
        column := 0;
        row := row + 1;
        if row == 25 {
          Scroll();
        }
        return;
      }
      buffer[row * 80 + column] := MakeVgaEntry(c, color);
      column := column + 1;
      if column == 80 {
        column := 0;
        row := row + 1;
        if row == 25 {
          Scroll();
        }
      }
    }

    /** `terminal_write`: the first `size` characters of `data`, in order. */
    method Write(data: array<char>, size: nat)
      requires Valid() && size <= data.Length && forall i | 0 <= i < size :: IsChar8(data[i])
      modifies this, buffer
      ensures Valid() && State() == PutAll(old(State()), data[..size])
    {
      for i := 0 to size
        invariant Valid() && State() == PutAll(old(State()), data[..i])
      {
        PutAllSnoc(old(State()), data[..i], data[i]);
        assert data[..i + 1] == data[..i] + [data[i]];
        Putchar(data[i]);
      }
    }

    /** `terminal_writestring`: the characters before the terminator. */
    method WriteString(data: array<char>)
      requires Valid() && '\0' in data[..] && IsCStr(CString(data[..]))
      modifies this, buffer
      ensures Valid() && State() == PutAll(old(State()), CString(data[..]))
    {
      var len := Strlen(data);
      assert data[..len] == CString(data[..]);
      Write(data, len);
    }
  }
}
