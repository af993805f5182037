/**
 * The final draft's keyboard driver: a 128-slot circular buffer of typed
 * characters and an interrupt handler that turns one PS/2 set-1 scancode into
 * modifier-state changes or one buffered character.
 *
 * The controller's "a byte is waiting" status and the data byte are folded
 * into the handler's parameter: `None` when no byte is waiting (or the driver
 * was never initialised), `Some(scancode)` otherwise.
 */
module FinalKeyboard {
  import opened Common
  import opened Scancodes
  import Ring

  /** The driver redefines the buffer size to 128 after its header's 256. */
  const BUFFER_SIZE: nat := 128

  const KEY_CTRL: byte := 0x1D
  const KEY_LSHIFT: byte := 0x2A
  const KEY_RSHIFT: byte := 0x36
  const KEY_ALT: byte := 0x38
  const KEY_CAPSLOCK: byte := 0x3A
  /** Set in a break (release) code. */
  const RELEASE_BIT: byte := 0x80

  /** The four modifier flags. */
  datatype Modifiers = Modifiers(ctrl: bool, alt: bool, shift: bool, caps: bool)

  const NoModifiers: Modifiers := Modifiers(false, false, false, false)

  /** Whether a scancode is a break code. */
  predicate IsRelease(scancode: byte) {
    scancode >= RELEASE_BIT
  }

  /** The key, without the release bit. */
  function KeyOf(scancode: byte): (k: byte)
    ensures k < RELEASE_BIT && (k == scancode || k + RELEASE_BIT == scancode)
  {
    scancode % RELEASE_BIT
  }

  predicate IsModifierKey(k: byte) {
    k == KEY_CTRL || k == KEY_ALT || k == KEY_LSHIFT || k == KEY_RSHIFT || k == KEY_CAPSLOCK
  }

  /**
   * The modifier flags after one scancode: ctrl, alt and either shift follow
   * the key (pressed = set, released = clear); caps lock flips on its press
   * only; any other key leaves the flags alone.
   */
  function NextModifiers(m: Modifiers, scancode: byte): (r: Modifiers)
    ensures !IsModifierKey(KeyOf(scancode)) ==> r == m
    ensures KeyOf(scancode) == KEY_CTRL ==> r == m.(ctrl := !IsRelease(scancode))
    ensures KeyOf(scancode) == KEY_ALT ==> r == m.(alt := !IsRelease(scancode))
    ensures KeyOf(scancode) in {KEY_LSHIFT, KEY_RSHIFT} ==> r == m.(shift := !IsRelease(scancode))
    ensures KeyOf(scancode) == KEY_CAPSLOCK ==> r == m.(caps := m.caps != !IsRelease(scancode))
  {
    var release := IsRelease(scancode);
    var key := KeyOf(scancode);
    if key == KEY_CTRL then m.(ctrl := !release)
    else if key == KEY_ALT then m.(alt := !release)
    else if key == KEY_LSHIFT || key == KEY_RSHIFT then m.(shift := !release)
    else if key == KEY_CAPSLOCK then (if release then m else m.(caps := !m.caps))
    else m
  }

  /** With ctrl held, a lowercase letter becomes its control character, 1 to 26. */
  function WithCtrl(ctrl: bool, c: char): (r: char)
    ensures ctrl && IsLower(c) ==> 1 <= r as int <= 26 && r as int == c as int - 'a' as int + 1
    ensures !(ctrl && IsLower(c)) ==> r == c
  {
    if ctrl && IsLower(c) then (c as int - 'a' as int + 1) as char else c
  }

  /**
   * The character the handler hands to the buffer for a scancode under the
   * flags `m` (NUL for none): modifiers, releases and keys beyond the tables
   * give none; otherwise the shifted table when exactly one of shift and caps
   * lock is on, the plain one else, then the ctrl mapping.
   */
  function KeyChar(m: Modifiers, scancode: byte): char
  {
    var key := KeyOf(scancode);
    if IsModifierKey(key) || IsRelease(scancode) || key >= TableLength then '\0'
    else WithCtrl(m.ctrl, if m.shift != m.caps then ShiftMap[key] else RegularMap[key])
  }

  /** Modifier keys, releases and keys beyond the tables never produce a character. */
  lemma NonCharacterKeys(m: Modifiers, scancode: byte)
    requires IsModifierKey(KeyOf(scancode)) || IsRelease(scancode) || KeyOf(scancode) >= TableLength
    ensures KeyChar(m, scancode) == '\0'
  {
  }

  /** Pressing caps lock twice restores the flags; releasing it changes nothing. */
  lemma CapsLockToggles(m: Modifiers)
    ensures NextModifiers(NextModifiers(m, KEY_CAPSLOCK), KEY_CAPSLOCK) == m
    ensures NextModifiers(m, KEY_CAPSLOCK + RELEASE_BIT) == m
  {
  }

  /**
   * A letter key without ctrl gives its capital exactly when shift and caps
   * lock disagree, and its lowercase letter otherwise.
   */
  lemma LetterCase(m: Modifiers, key: byte)
    requires key < TableLength && IsLower(RegularMap[key]) && !m.ctrl
    ensures IsUpper(KeyChar(m, key)) <==> m.shift != m.caps
    ensures m.shift == m.caps ==> KeyChar(m, key) == RegularMap[key]
    ensures m.shift != m.caps ==> KeyChar(m, key) as int == RegularMap[key] as int - 32
  {
    LetterKey(key);
    assert !IsModifierKey(key) by {
      ModifierKeysGiveNothing();
    }
  }

  /**
   * With ctrl held a letter key gives its control character (1 for 'a' ...
   * 26 for 'z') unless shift and caps lock disagree, in which case the
   * capital comes through unchanged.
   */
  lemma CtrlLetter(m: Modifiers, key: byte)
    requires key < TableLength && IsLower(RegularMap[key]) && m.ctrl
    ensures m.shift == m.caps ==> KeyChar(m, key) as int == RegularMap[key] as int - 'a' as int + 1
    ensures m.shift != m.caps ==> KeyChar(m, key) == ShiftMap[key] && IsUpper(KeyChar(m, key))
  {
    LetterKey(key);
    assert !IsModifierKey(key) by {
      ModifierKeysGiveNothing();
    }
  }

  /** The buffer, its two indices and the modifier flags. */
  class Keyboard {
    const keyBuffer: array<char>
    var bufferStart: nat
    var bufferEnd: nat
    var mods: Modifiers

    ghost predicate Valid()
      reads this
    {
      keyBuffer.Length == BUFFER_SIZE && bufferStart < BUFFER_SIZE && bufferEnd < BUFFER_SIZE
    }

    /** The characters waiting to be read, oldest first. */
    function Held(): seq<char>
      requires Valid()
      reads this, keyBuffer
    {
      Ring.Contents(keyBuffer[..], bufferStart, bufferEnd)
    }

    /** The static state starts zeroed: empty buffer, no modifiers. */
    constructor ()
      ensures Valid() && fresh(keyBuffer)
      ensures Held() == [] && mods == NoModifiers
    {
      keyBuffer := new char[BUFFER_SIZE](_ => '\0');
      bufferStart := 0;
      bufferEnd := 0;
      mods := NoModifiers;
    }

    /** `keyboard_buffer_is_empty`: the indices meet exactly when nothing is held. */
    function IsEmpty(): (empty: bool)
      requires Valid()
      reads this, keyBuffer
      ensures empty <==> Held() == []
    {
      Ring.EmptyIff(keyBuffer[..], bufferStart, bufferEnd);
      bufferStart == bufferEnd
    }

    /** `keyboard_buffer_is_full`: the end one behind the start exactly when 127 characters are held. */
    function IsFull(): (full: bool)
      requires Valid()
      reads this, keyBuffer
      ensures full <==> |Held()| == BUFFER_SIZE - 1
    {
      Ring.FullIff(keyBuffer[..], bufferStart, bufferEnd);
      (bufferEnd + 1) % BUFFER_SIZE == bufferStart
    }

    /** `keyboard_buffer_put`: a nonzero character is appended unless the buffer is full. */
    method Put(c: char)
      requires Valid()
      modifies this, keyBuffer
      ensures Valid() && mods == old(mods)
      ensures Held() == Ring.Pushed(old(Held()), c, BUFFER_SIZE)
    {
      if !IsFull() && c != '\0' {
        Ring.PutAppends(keyBuffer[..], bufferStart, bufferEnd, c);
        keyBuffer[bufferEnd] := c;
        bufferEnd := (bufferEnd + 1) % BUFFER_SIZE;
      }
    }

    /** `keyboard_buffer_get`: NUL when empty; otherwise the oldest character, which leaves the buffer. */
    method Get() returns (c: char)
      requires Valid()
      modifies this
      ensures Valid() && mods == old(mods)
      ensures old(Held()) == [] ==> c == '\0' && Held() == []
      ensures old(Held()) != [] ==> c == old(Held())[0] && Held() == old(Held())[1..]
    {
      if IsEmpty() {
        return '\0';
      }
      Ring.GetRemovesOldest(keyBuffer[..], bufferStart, bufferEnd);
      c := keyBuffer[bufferStart];
      bufferStart := (bufferStart + 1) % BUFFER_SIZE;
    }

    /** `keyboard_buffer_clear`: both indices back to 0, nothing held. */
    method Clear()
      requires Valid()
      modifies this
      ensures Valid() && Held() == [] && mods == old(mods)
      ensures bufferStart == 0 && bufferEnd == 0
    {
      bufferStart := 0;
      bufferEnd := 0;
    }

    /** `keyboard_getchar`: the next buffered character, NUL when there is none. */
    method Getchar() returns (c: char)
      requires Valid()
      modifies this
      ensures Valid() && mods == old(mods)
      ensures old(Held()) == [] ==> c == '\0' && Held() == []
      ensures old(Held()) != [] ==> c == old(Held())[0] && Held() == old(Held())[1..]
    {
      c := Get();
    }

    /**
     * `keyboard_handler`: with no byte waiting, nothing happens; otherwise
     * the flags advance by the scancode and the key's character, if any, is
     * put into the buffer.
     */
    method Handler(pending: Option<byte>)
      requires Valid()
      modifies this, keyBuffer
      ensures Valid()
      ensures pending == None ==> mods == old(mods) && Held() == old(Held())
      ensures pending.Some? ==> mods == NextModifiers(old(mods), pending.value)
      ensures pending.Some? ==> Held() == Ring.Pushed(old(Held()), KeyChar(old(mods), pending.value), BUFFER_SIZE)
    {
      if pending == None {
        return;
      }
      var scancode := pending.value;
      var release := scancode >= RELEASE_BIT;
      var key := scancode % RELEASE_BIT;
      if key == KEY_CTRL {
        mods := mods.(ctrl := !release);
        return;
      } else if key == KEY_ALT {
        mods := mods.(alt := !release);
        return;
      } else if key == KEY_LSHIFT || key == KEY_RSHIFT {
        mods := mods.(shift := !release);
        return;
      } else if key == KEY_CAPSLOCK {
        if !release {
          mods := mods.(caps := !mods.caps);
        }
        return;
      }
      if !release && key < TableLength {
        PutKey(key);
      }
    }

    /** The translation of a pressed, non-modifier key within the tables, and the put. */
    method PutKey(key: byte)
      requires Valid() && key < TableLength && !IsModifierKey(key)
      modifies this, keyBuffer
      ensures Valid() && mods == old(mods)
      ensures Held() == Ring.Pushed(old(Held()), KeyChar(mods, key), BUFFER_SIZE)
    {
      var c := Translate(mods, key);
      Put(c);
    }

    /** The table lookup and ctrl mapping of `keyboard_handler` for a pressed key within the tables. */
    static method Translate(m: Modifiers, key: byte) returns (c: char)
      requires key < TableLength && !IsModifierKey(key)
      ensures c == KeyChar(m, key)
    {
      var uppercase := m.shift != m.caps;
      c := if uppercase then ShiftMap[key] else RegularMap[key];
      assert KeyChar(m, key) == WithCtrl(m.ctrl, c);
      if m.ctrl && 'a' <= c <= 'z' {
        c := (c as int - 'a' as int + 1) as char;
      }
    }
  }
}
