/**
 * The first draft's keyboard driver: no buffer; `keyboard_getchar` polls the
 * controller, reads one scancode, updates the ctrl, shift and caps lock flags
 * and returns the translated character (NUL for none). The interrupt
 * handler calls it and drops the character.
 *
 * The controller's "a byte is waiting" status and the data byte are the
 * parameter `pending`: `None` when no byte is waiting (or the driver was never
 * initialised), `Some(scancode)` otherwise.
 */
module KernelKeyboard {
  import opened Common
  import opened Scancodes

  const CTRL_PRESS: byte := 0x1D
  const CTRL_RELEASE: byte := 0x9D
  const LSHIFT_PRESS: byte := 0x2A
  const RSHIFT_PRESS: byte := 0x36
  const LSHIFT_RELEASE: byte := 0xAA
  const RSHIFT_RELEASE: byte := 0xB6
  const CAPS_LOCK: byte := 0x3A

  /** The three flags this draft tracks. */
  datatype Flags = Flags(ctrl: bool, shift: bool, caps: bool)

  /** The scancodes the `switch` handles: they only change flags. */
  predicate IsFlagCode(scancode: byte) {
    scancode in {CTRL_PRESS, CTRL_RELEASE, LSHIFT_PRESS, RSHIFT_PRESS, LSHIFT_RELEASE, RSHIFT_RELEASE, CAPS_LOCK}
  }

  /**
   * The flags after one scancode: ctrl and shift follow their make and break
   * codes, the caps lock make code flips caps lock, and every other code
   * (including the caps lock break code) leaves them alone.
   */
  function NextFlags(f: Flags, scancode: byte): (r: Flags)
    ensures scancode == CTRL_PRESS ==> r == f.(ctrl := true)
    ensures scancode == CTRL_RELEASE ==> r == f.(ctrl := false)
    ensures scancode in {LSHIFT_PRESS, RSHIFT_PRESS} ==> r == f.(shift := true)
    ensures scancode in {LSHIFT_RELEASE, RSHIFT_RELEASE} ==> r == f.(shift := false)
    ensures scancode == CAPS_LOCK ==> r == f.(caps := !f.caps)
    ensures !IsFlagCode(scancode) ==> r == f
  {
    if scancode == CTRL_PRESS then f.(ctrl := true)
    else if scancode == CTRL_RELEASE then f.(ctrl := false)
    else if scancode == LSHIFT_PRESS || scancode == RSHIFT_PRESS then f.(shift := true)
    else if scancode == LSHIFT_RELEASE || scancode == RSHIFT_RELEASE then f.(shift := false)
    else if scancode == CAPS_LOCK then f.(caps := !f.caps)
    else f
  }

  /**
   * What `keyboard_getchar` returns for a scancode under the flags `f`:
   * NUL for flag codes, releases and keys beyond the tables; otherwise the
   * shifted table exactly when shift and caps lock disagree, and under ctrl a
   * lowercase letter becomes its control character.
   */
  function KeyChar(f: Flags, scancode: byte): char
  {
    if IsFlagCode(scancode) || scancode >= 0x80 || scancode >= TableLength then '\0'
    else
      var c := if f.shift != f.caps then ShiftMap[scancode] else RegularMap[scancode];
      if f.ctrl && IsLower(c) then (c as int - 'a' as int + 1) as char else c
  }

  /** Flag codes, releases and keys beyond the tables give NUL. */
  lemma NonCharacterCodes(f: Flags, scancode: byte)
    requires IsFlagCode(scancode) || scancode >= 0x80 || scancode >= TableLength
    ensures KeyChar(f, scancode) == '\0'
  {
  }

  /** Releases other than ctrl's and the shifts' change no flag. */
  lemma ReleasesKeepFlags(f: Flags, scancode: byte)
    requires scancode >= 0x80 && scancode !in {CTRL_RELEASE, LSHIFT_RELEASE, RSHIFT_RELEASE}
    ensures NextFlags(f, scancode) == f
  {
  }

  /**
   * A letter key without ctrl gives its capital exactly when shift and caps
   * lock disagree; with ctrl and the two in agreement it gives 1..26.
   */
  lemma LetterCase(f: Flags, key: byte)
    requires key < TableLength && IsLower(RegularMap[key])
    ensures !f.ctrl ==> (IsUpper(KeyChar(f, key)) <==> f.shift != f.caps)
    ensures f.ctrl && f.shift == f.caps ==> KeyChar(f, key) as int == RegularMap[key] as int - 'a' as int + 1
  {
    LetterKey(key);
    assert !IsFlagCode(key) by {
      ModifierKeysGiveNothing();
    }
  }

  /** The three flags `keyboard_getchar` keeps between calls. */
  class Keyboard {
    var flags: Flags

    /** The static flags start cleared. */
    constructor ()
      ensures flags == Flags(false, false, false)
    {
      flags := Flags(false, false, false);
    }

    /**
     * `keyboard_getchar`: NUL and no change when no byte is waiting;
     * otherwise the flags advance by the scancode and the key's character is
     * returned.
     */
    method Getchar(pending: Option<byte>) returns (c: char)
      modifies this
      ensures pending == None ==> c == '\0' && flags == old(flags)
      ensures pending.Some? ==> c == KeyChar(old(flags), pending.value)
      ensures pending.Some? ==> flags == NextFlags(old(flags), pending.value)
    {
      if pending == None {
        return '\0';
      }
      var scancode := pending.value;
      if scancode == CTRL_PRESS {
        flags := flags.(ctrl := true);
        return '\0';
      } else if scancode == CTRL_RELEASE {
        flags := flags.(ctrl := false);
        return '\0';
      } else if scancode == LSHIFT_PRESS || scancode == RSHIFT_PRESS {
        flags := flags.(shift := true);
        return '\0';
      } else if scancode == LSHIFT_RELEASE || scancode == RSHIFT_RELEASE {
        flags := flags.(shift := false);
        return '\0';
      } else if scancode == CAPS_LOCK {
        flags := flags.(caps := !flags.caps);
        return '\0';
      }
      if scancode >= 0x80 {
        return '\0';
      }
      c := '\0';
      if scancode < 128 {
        if scancode < TableLength {
          var uppercase := flags.shift != flags.caps;
          c := if uppercase then ShiftMap[scancode] else RegularMap[scancode];
          if flags.ctrl && 'a' <= c <= 'z' {
            c := (c as int - 'a' as int + 1) as char;
          }
        }
      }
    }

    /** `keyboard_handler`: the pending key is processed for its flag changes and its character dropped. */
    method Handler(pending: Option<byte>)
      modifies this
      ensures pending == None ==> flags == old(flags)
      ensures pending.Some? ==> flags == NextFlags(old(flags), pending.value)
    {
      if pending.Some? {
        var _ := Getchar(pending);
      }
    }
  }
}
