/**
 * How the three keyboard translations relate. The final draft and the first
 * draft compute the same character and the same ctrl/shift/caps flags for
 * every scancode (the final draft's extra alt flag never affects a
 * character). The release draft differs under caps lock: it flips the case
 * of letters only, where the other two switch the whole row to the shifted
 * table.
 */
module KeyboardDrafts {
  import opened Common
  import opened Scancodes
  import FinalKeyboard
  import KernelKeyboard
  import ReleaseKeyboard

  /** The first draft's flags that correspond to the final draft's modifiers. */
  function KernelFlags(m: FinalKeyboard.Modifiers): KernelKeyboard.Flags {
    KernelKeyboard.Flags(m.ctrl, m.shift, m.caps)
  }

  /** For every scancode, the final and the first draft produce the same character. */
  lemma FinalMatchesKernel(m: FinalKeyboard.Modifiers, scancode: byte)
    ensures FinalKeyboard.KeyChar(m, scancode) == KernelKeyboard.KeyChar(KernelFlags(m), scancode)
  {
    var key := FinalKeyboard.KeyOf(scancode);
    if scancode >= 0x80 {
      FinalKeyboard.NonCharacterKeys(m, scancode);
      KernelKeyboard.NonCharacterCodes(KernelFlags(m), scancode);
    } else if FinalKeyboard.IsModifierKey(key) {
      ModifierKeyMatches(m, scancode);
    } else {
      assert key == scancode && !KernelKeyboard.IsFlagCode(scancode);
    }
  }

  /** The final draft's modifier keys give NUL, and so do they in the first draft, alt included (its table entries are NUL). */
  lemma ModifierKeyMatches(m: FinalKeyboard.Modifiers, scancode: byte)
    requires scancode < 0x80 && FinalKeyboard.IsModifierKey(FinalKeyboard.KeyOf(scancode))
    ensures FinalKeyboard.KeyChar(m, scancode) == KernelKeyboard.KeyChar(KernelFlags(m), scancode) == '\0'
  {
    FinalKeyboard.NonCharacterKeys(m, scancode);
    if scancode == FinalKeyboard.KEY_ALT {
      ModifierKeysGiveNothing();
    } else {
      assert KernelKeyboard.IsFlagCode(scancode);
    }
  }

  /** For every scancode, the two drafts update ctrl, shift and caps lock alike. */
  lemma FinalFlagsMatchKernel(m: FinalKeyboard.Modifiers, scancode: byte)
    ensures KernelFlags(FinalKeyboard.NextModifiers(m, scancode)) == KernelKeyboard.NextFlags(KernelFlags(m), scancode)
  {
    var key := FinalKeyboard.KeyOf(scancode);
    assert key == scancode || key + 0x80 == scancode;
  }

  /**
   * With caps lock on and shift up, the '1' key gives '!' in the final
   * draft and '1' in the release draft.
   */
  lemma CapsLockOnDigits()
    ensures FinalKeyboard.KeyChar(FinalKeyboard.Modifiers(false, false, false, true), 0x02) == '!'
    ensures ReleaseKeyboard.KeyChar(ReleaseKeyboard.Flags(false, true), 0x02) == '1'
  {
    assert RegularMap[2] == '1' && ShiftMap[2] == '!';
  }
}
