/**
 * The release draft's keyboard driver: the interrupt handler reads one
 * scancode, tracks shift and caps lock, translates key presses through the
 * US tables, flips the case of letters under caps lock, and queues the result
 * in a 256-slot circular buffer that `keyboard_getchar` drains.
 *
 * The scancode the handler reads from the data port is its parameter.
 */
module ReleaseKeyboard {
  import opened Common
  import opened Scancodes
  import Ring

  /** `KEYBOARD_BUFFER_SIZE` from the driver's header. */
  const BUFFER_SIZE: nat := 256

  const KEY_LSHIFT: byte := 0x2A
  const KEY_RSHIFT: byte := 0x36
  const KEY_CAPS_LOCK: byte := 0x3A
  const RELEASE_BIT: byte := 0x80

  /** The two flags this draft tracks. */
  datatype Flags = Flags(shift: bool, caps: bool)

  /**
   * Flipping bit 5 of a letter: bit 5 is the case bit of ASCII letters, so this
   * turns a lowercase letter into its capital and back.
   */
  function FlipCase(c: char): (r: char)
    requires IsLower(c) || IsUpper(c)
    ensures IsLower(c) ==> IsUpper(r) && r as int == c as int - 32
    ensures IsUpper(c) ==> IsLower(r) && r as int == c as int + 32
  {
    if IsLower(c) then (c as int - 32) as char else (c as int + 32) as char
  }

  /**
   * The flags after one scancode: a shift make code sets shift and its break
   * code clears it; the caps lock make code flips caps lock; nothing else
   * (including the caps lock break code) touches them.
   */
  function NextFlags(f: Flags, scancode: byte): (r: Flags)
    ensures scancode in {KEY_LSHIFT, KEY_RSHIFT} ==> r == f.(shift := true)
    ensures scancode in {KEY_LSHIFT + RELEASE_BIT, KEY_RSHIFT + RELEASE_BIT} ==> r == f.(shift := false)
    ensures scancode == KEY_CAPS_LOCK ==> r == f.(caps := !f.caps)
    ensures scancode !in {KEY_LSHIFT, KEY_RSHIFT, KEY_LSHIFT + RELEASE_BIT, KEY_RSHIFT + RELEASE_BIT, KEY_CAPS_LOCK}
      ==> r == f
  {
    if scancode == KEY_LSHIFT || scancode == KEY_RSHIFT then f.(shift := true)
    else if scancode == KEY_LSHIFT + RELEASE_BIT || scancode == KEY_RSHIFT + RELEASE_BIT then f.(shift := false)
    else if scancode == KEY_CAPS_LOCK then f.(caps := !f.caps)
    else f
  }

  /** Whether a scancode only changes the flags. */
  predicate IsFlagKey(scancode: byte) {
    scancode in {KEY_LSHIFT, KEY_RSHIFT, KEY_LSHIFT + RELEASE_BIT, KEY_RSHIFT + RELEASE_BIT, KEY_CAPS_LOCK}
  }

  /**
   * The character the handler would queue for a scancode (NUL for none):
   * flag keys, releases and keys beyond the tables give none; otherwise the
   * shifted table when shift is held, the plain one else, with the case of a
   * letter flipped under caps lock.
   */
  function KeyChar(f: Flags, scancode: byte): char
  {
    if IsFlagKey(scancode) || scancode >= RELEASE_BIT || scancode >= TableLength then '\0'
    else
      Cased(f.caps, if f.shift then ShiftMap[scancode] else RegularMap[scancode])
  }

  /** A table character under caps lock: letters flipped, anything else as it is. */
  function Cased(caps: bool, c: char): char {
    if caps && (IsLower(c) || IsUpper(c)) then FlipCase(c) else c
  }

  /** A letter key gives its capital exactly when shift and caps lock disagree. */
  lemma LetterCase(f: Flags, key: byte)
    requires key < TableLength && IsLower(RegularMap[key])
    ensures IsUpper(KeyChar(f, key)) <==> f.shift != f.caps
    ensures f.shift == f.caps ==> KeyChar(f, key) == RegularMap[key]
    ensures f.shift != f.caps ==> KeyChar(f, key) == ShiftMap[key]
  {
    LetterKey(key);
    assert !IsFlagKey(key) by {
      ModifierKeysGiveNothing();
    }
    CasedLetter(f.shift, f.caps, RegularMap[key], ShiftMap[key]);
  }

  /** The case rule on a letter and its capital: the capital exactly when shift and caps lock disagree. */
  lemma CasedLetter(shift: bool, caps: bool, lower: char, upper: char)
    requires IsLower(lower) && IsUpper(upper) && upper as int == lower as int - 32
    ensures IsUpper(Cased(caps, if shift then upper else lower)) <==> shift != caps
    ensures shift == caps ==> Cased(caps, if shift then upper else lower) == lower
    ensures shift != caps ==> Cased(caps, if shift then upper else lower) == upper
  {
  }

  /** Caps lock changes nothing on a key that gives no letter: digits and punctuation follow shift alone. */
  lemma CapsLeavesNonLetters(f: Flags, key: byte)
    requires key < TableLength && !IsLower(RegularMap[key])
    ensures KeyChar(f, key) == KeyChar(f.(caps := false), key)
  {
    LetterKey(key);
  }

  /** Releases of ordinary keys are ignored: no character and no flag change. */
  lemma ReleasesIgnored(f: Flags, scancode: byte)
    requires scancode >= RELEASE_BIT && !IsFlagKey(scancode)
    ensures KeyChar(f, scancode) == '\0' && NextFlags(f, scancode) == f
  {
  }

  /** The buffer, its two indices and the flags. */
  class Keyboard {
    const keyboardBuffer: array<char>
    var bufferStart: nat
    var bufferEnd: nat
    var flags: Flags

    ghost predicate Valid()
      reads this
    {
      keyboardBuffer.Length == BUFFER_SIZE && bufferStart < BUFFER_SIZE && bufferEnd < BUFFER_SIZE
    }

    /** The characters waiting to be read, oldest first. */
    function Held(): seq<char>
      requires Valid()
      reads this, keyboardBuffer
    {
      Ring.Contents(keyboardBuffer[..], bufferStart, bufferEnd)
    }

    /** The static state starts zeroed. */
    constructor ()
      ensures Valid() && fresh(keyboardBuffer)
      ensures Held() == [] && flags == Flags(false, false)
    {
      keyboardBuffer := new char[BUFFER_SIZE](_ => '\0');
      bufferStart := 0;
      bufferEnd := 0;
      flags := Flags(false, false);
    }

    /**
     * `keyboard_handler`: update the flags for shift and caps lock keys,
     * ignore other releases, and queue the translated character of a press
     * when it is not NUL and the buffer has room.
     */
    method Handler(scancode: byte)
      requires Valid()
      modifies this, keyboardBuffer
      ensures Valid()
      ensures flags == NextFlags(old(flags), scancode)
      ensures Held() == Ring.Pushed(old(Held()), KeyChar(old(flags), scancode), BUFFER_SIZE)
    {
      if scancode == KEY_LSHIFT || scancode == KEY_RSHIFT {
        flags := flags.(shift := true);
        return;
      }
      if scancode == KEY_LSHIFT + RELEASE_BIT || scancode == KEY_RSHIFT + RELEASE_BIT {
        flags := flags.(shift := false);
        return;
      }
      if scancode == KEY_CAPS_LOCK {
        flags := flags.(caps := !flags.caps);
        return;
      }
      if scancode >= RELEASE_BIT {
        return;
      }
      if scancode < TableLength {
        var c := if flags.shift then ShiftMap[scancode] else RegularMap[scancode];
        if flags.caps && (('a' <= c <= 'z') || ('A' <= c <= 'Z')) {
          c := FlipCase(c);
        }
        Enqueue(c);
      }
    }

    /** The tail of the handler: a nonzero character is stored when the next end index is not the start. */
    method Enqueue(c: char)
      requires Valid()
      modifies this, keyboardBuffer
      ensures Valid() && flags == old(flags)
      ensures Held() == Ring.Pushed(old(Held()), c, BUFFER_SIZE)
    {
      if c != '\0' {
        var nextEnd := (bufferEnd + 1) % BUFFER_SIZE;
        Ring.FullIff(keyboardBuffer[..], bufferStart, bufferEnd);
        if nextEnd != bufferStart {
          Ring.PutAppends(keyboardBuffer[..], bufferStart, bufferEnd, c);
          keyboardBuffer[bufferEnd] := c;
          bufferEnd := nextEnd;
        }
      }
    }

    /** `keyboard_getchar`: NUL when empty; otherwise the oldest character, which leaves the buffer. */
    method Getchar() returns (c: char)
      requires Valid()
      modifies this
      ensures Valid() && flags == old(flags)
      ensures old(Held()) == [] ==> c == '\0' && Held() == []
      ensures old(Held()) != [] ==> c == old(Held())[0] && Held() == old(Held())[1..]
    {
      Ring.EmptyIff(keyboardBuffer[..], bufferStart, bufferEnd);
      if bufferStart == bufferEnd {
        return '\0';
      }
      Ring.GetRemovesOldest(keyboardBuffer[..], bufferStart, bufferEnd);
      c := keyboardBuffer[bufferStart];
      bufferStart := (bufferStart + 1) % BUFFER_SIZE;
    }

    /** `keyboard_available`: the indices differ exactly when a character is waiting. */
    function Available(): (available: bool)
      requires Valid()
      reads this, keyboardBuffer
      ensures available <==> Held() != []
    {
      Ring.EmptyIff(keyboardBuffer[..], bufferStart, bufferEnd);
      bufferStart != bufferEnd
    }

    /** `keyboard_clear_buffer`: both indices back to 0, nothing held. */
    method ClearBuffer()
      requires Valid()
      modifies this
      ensures Valid() && Held() == [] && flags == old(flags)
      ensures bufferStart == 0 && bufferEnd == 0
    {
      bufferStart := 0;
      bufferEnd := 0;
    }
  }
}
