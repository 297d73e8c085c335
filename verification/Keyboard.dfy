/** Scancodes and their meaning. */
module Keyboard {
  import opened Screen

  const TAB := 0x0F
  const CTRL := 0x1D
  const LSHIFT := 0x2A
  const RSHIFT := 0x36
  const ENTER := 0x1C
  const ALT := 0x38
  const CAPS := 0x3A
  const BACKSPACE := 0x0E

  /** The two tables by keyboard rows, each with its terminator. */
  const DIGITS := "??1234567890-=\U{8}\t"
  const UPPER := "qwertyuiop[]\n?"
  const HOME := "asdfghjkl;'`?\\"
  const LOWER := "zxcvbnm,./??? ?\0"
  const SCANCODE_SET := Join(DIGITS, UPPER, HOME, LOWER)

  const SHIFT_DIGITS := "..!@#$%^&*()_+\U{8}\t"
  const SHIFT_UPPER := "QWERTYUIOP{}\n."
  const SHIFT_HOME := "ASDFGHJKL:\"~.|"
  const SHIFT_LOWER := "ZXCVBNM<>?.*. ?\0"
  const SHIFT_SET := Join(SHIFT_DIGITS, SHIFT_UPPER, SHIFT_HOME, SHIFT_LOWER)

  function Join(digits: string, upper: string, home: string, lower: string): string {
    digits + upper + home + lower
  }

  const TABLE := 60

  datatype Kbd = Kbd(ctrl: bool, shift: bool, alt: bool, caps: bool)

  function ToUpper(c: char): char {
    if 'a' <= c <= 'z' then c - 'a' + 'A' else c
  }

  function ToLower(c: char): char {
    if 'A' <= c <= 'Z' then c - 'A' + 'a' else c
  }

  predicate Ascii(c: char) {
    c as int < 128
  }

  /** ASCII, and plain unless at one of the two given places. */
  predicate RowOk(row: string, special: nat, special2: nat) {
    forall i | 0 <= i < |row| :: Ascii(row[i]) && (i == special || i == special2 || Plain(row[i]))
  }

  /** A table is as its rows are; the control keys sit at the end of the first and in the second. */
  lemma JoinOk(digits: string, upper: string, home: string, lower: string, code: nat)
    requires |digits| == 16 && |upper| == 14 && |home| == 14 && |lower| == 16 && code < TABLE
    requires RowOk(digits, 14, 15) && RowOk(upper, 12, 12) && RowOk(home, 14, 14) && RowOk(lower, 16, 16)
    ensures var s := Join(digits, upper, home, lower);
            |s| == TABLE && Ascii(s[code]) && (code !in [BACKSPACE, TAB, ENTER] ==> Plain(s[code]))
  {
    var s := Join(digits, upper, home, lower);
    if code < 16 {
      assert s[code] == digits[code];
    } else if code < 30 {
      assert s[code] == upper[code - 16];
    } else if code < 44 {
      assert s[code] == home[code - 30];
    } else {
      assert s[code] == lower[code - 44];
    }
  }

  lemma OuterRows()
    ensures |DIGITS| == 16 && |SHIFT_DIGITS| == 16 && |LOWER| == 16 && |SHIFT_LOWER| == 16
    ensures RowOk(DIGITS, 14, 15) && RowOk(SHIFT_DIGITS, 14, 15)
    ensures RowOk(LOWER, 16, 16) && RowOk(SHIFT_LOWER, 16, 16)
  {
  }

  lemma InnerRows()
    ensures |UPPER| == 14 && |SHIFT_UPPER| == 14 && |HOME| == 14 && |SHIFT_HOME| == 14
    ensures RowOk(UPPER, 12, 12) && RowOk(SHIFT_UPPER, 12, 12)
    ensures RowOk(HOME, 14, 14) && RowOk(SHIFT_HOME, 14, 14)
  {
  }

  lemma TablesAreAscii(code: nat)
    requires code < TABLE
    ensures |SCANCODE_SET| == TABLE && |SHIFT_SET| == TABLE
    ensures Ascii(SCANCODE_SET[code]) && Ascii(SHIFT_SET[code])
    ensures code !in [BACKSPACE, TAB, ENTER] ==> Plain(SCANCODE_SET[code]) && Plain(SHIFT_SET[code])
  {
    OuterRows();
    InnerRows();
    JoinOk(DIGITS, UPPER, HOME, LOWER, code);
    JoinOk(SHIFT_DIGITS, SHIFT_UPPER, SHIFT_HOME, SHIFT_LOWER, code);
  }

  /** Not one of the characters the screen treats specially. */
  predicate Plain(c: char) {
    c as int !in [BACKSPACE_CHAR, TAB_CHAR, NEWLINE, RETURN]
  }

  function Decode(k: Kbd, code: nat): (c: Char)
    requires code < TABLE
  {
    TablesAreAscii(code);
    var plain, shifted := SCANCODE_SET[code], SHIFT_SET[code];
    if !k.shift && k.caps then ToUpper(plain) as int
    else if k.shift && !k.caps then shifted as int
    else if !k.shift then plain as int
    else ToLower(shifted) as int
  }

  predicate IsLower(c: char) {
    'a' <= c <= 'z'
  }

  predicate IsUpper(c: char) {
    'A' <= c <= 'Z'
  }

  /** Shift turns letters into capitals and other characters into no letters. */
  predicate Paired(row: string, shifted: string) {
    |row| == |shifted| &&
    forall i | 0 <= i < |row| ::
      !IsUpper(row[i]) && (if IsLower(row[i]) then shifted[i] == ToUpper(row[i]) else !IsUpper(shifted[i]))
  }

  lemma RowsPaired()
    ensures Paired(DIGITS, SHIFT_DIGITS) && Paired(LOWER, SHIFT_LOWER)
    ensures Paired(UPPER, SHIFT_UPPER) && Paired(HOME, SHIFT_HOME)
  {
    OuterPaired();
    InnerPaired();
  }

  lemma OuterPaired()
    ensures Paired(DIGITS, SHIFT_DIGITS) && Paired(LOWER, SHIFT_LOWER)
  {
  }

  lemma InnerPaired()
    ensures Paired(UPPER, SHIFT_UPPER) && Paired(HOME, SHIFT_HOME)
  {
  }

  lemma JoinPaired(a: string, b: string, c: string, d: string, a': string, b': string, c': string, d': string)
    requires Paired(a, a') && Paired(b, b') && Paired(c, c') && Paired(d, d')
    ensures Paired(Join(a, b, c, d), Join(a', b', c', d'))
  {
  }

  /** A letter is a capital exactly when one of Shift and Caps Lock is on; only Shift affects other keys. */
  lemma DecodeLaw(k: Kbd, code: nat)
    requires code < TABLE
    ensures |SCANCODE_SET| == TABLE && |SHIFT_SET| == TABLE
    ensures var plain, shifted := SCANCODE_SET[code], SHIFT_SET[code];
            Decode(k, code) ==
            if IsLower(plain) then (if k.shift != k.caps then ToUpper(plain) as int else plain as int)
            else if k.shift then shifted as int else plain as int
  {
    TablesAreAscii(code);
    RowsPaired();
    JoinPaired(DIGITS, UPPER, HOME, LOWER, SHIFT_DIGITS, SHIFT_UPPER, SHIFT_HOME, SHIFT_LOWER);
  }

  /** Keys that reach the default case print: they never move the cursor otherwise. */
  lemma DecodedIsPlain(k: Kbd, code: nat)
    requires code < TABLE && code !in [BACKSPACE, TAB, ENTER]
    ensures Decode(k, code) !in [BACKSPACE_CHAR, TAB_CHAR, NEWLINE, RETURN]
  {
    TablesAreAscii(code);
  }

  // ----- What a scancode means ------------------------------------------------------------------

  /** Beyond is a code outside the tables, which the driver would read past their end. */
  datatype Key = Press(c: Char) | Erase | Enter | Silent | Beyond

  function Meaning(k: Kbd, scancode: nat): Key {
    if scancode >= 0x80 || scancode in [TAB, CTRL, LSHIFT, RSHIFT, CAPS, ALT] then Silent
    else if scancode == ENTER then Key.Enter
    else if scancode == BACKSPACE then Erase
    else if scancode < TABLE then Press(Decode(k, scancode))
    else Beyond
  }

  function NextKbd(k: Kbd, scancode: nat): Kbd {
    var down, code := scancode < 0x80, scancode % 0x80;
    if code == CTRL then k.(ctrl := down)
    else if code == LSHIFT || code == RSHIFT then k.(shift := down)
    else if code == ALT then k.(alt := down)
    else if code == CAPS && down then k.(caps := !k.caps)
    else k
  }

  lemma PressIsPlain(k: Kbd, scancode: nat)
    ensures Meaning(k, scancode).Press? ==> Meaning(k, scancode).c !in [BACKSPACE_CHAR, TAB_CHAR, NEWLINE, RETURN]
  {
    if Meaning(k, scancode).Press? { DecodedIsPlain(k, scancode); }
  }

  // ----- The same in plain numbers ----------------------------------------------------------------

  /** The modifiers after a sequence of scancodes. */
  function KbdAfter(k: Kbd, codes: seq<nat>): Kbd {
    if codes == [] then k else NextKbd(KbdAfter(k, codes[..|codes| - 1]), codes[|codes| - 1])
  }

  /** The last of the codes that is one of these, or -1. */
  function LastOf(codes: seq<nat>, these: set<nat>): int {
    if codes == [] then -1
    else if codes[|codes| - 1] in these then codes[|codes| - 1]
    else LastOf(codes[..|codes| - 1], these)
  }

  function CountOf(codes: seq<nat>, code: nat): nat {
    if codes == [] then 0 else CountOf(codes[..|codes| - 1], code) + if codes[|codes| - 1] == code then 1 else 0
  }

  /**
   Shift is down exactly when the last press or release of either Shift key was a press, or there was
   none and it was down before; Ctrl and Alt likewise. Caps Lock has changed after an odd number of
   presses, and its release does nothing.
   */
  ghost predicate ModifiersAre(k: Kbd, codes: seq<nat>, k': Kbd) {
    var shift, ctrl, alt := LastOf(codes, {0x2A, 0x36, 0xAA, 0xB6}), LastOf(codes, {0x1D, 0x9D}), LastOf(codes, {0x38, 0xB8});
    && k'.shift == (shift == 0x2A || shift == 0x36 || (shift == -1 && k.shift))
    && k'.ctrl == (ctrl == 0x1D || (ctrl == -1 && k.ctrl))
    && k'.alt == (alt == 0x38 || (alt == -1 && k.alt))
    && k'.caps == (k.caps != (CountOf(codes, 0x3A) % 2 == 1))
  }

  lemma LastStep(before: seq<nat>, code: nat, these: set<nat>)
    ensures LastOf(before + [code], these) == if code in these then code else LastOf(before, these)
    ensures LastOf(before, these) == -1 || LastOf(before, these) in these
  {
    assert (before + [code])[..|before|] == before;
  }

  /** One scancode: 0x2A and 0x36 press Shift, 0xAA and 0xB6 release it, and so on. */
  lemma NextKbdLaw(k: Kbd, code: nat)
    requires code < 0x100
    ensures var t := NextKbd(k, code);
            && t.shift == (code == 0x2A || code == 0x36 || (k.shift && code != 0xAA && code != 0xB6))
            && t.ctrl == (code == 0x1D || (k.ctrl && code != 0x9D))
            && t.alt == (code == 0x38 || (k.alt && code != 0xB8))
            && t.caps == (k.caps != (code == 0x3A))
  {
  }

  lemma {:induction false} ModifierHistory(k: Kbd, codes: seq<nat>)
    requires forall i | 0 <= i < |codes| :: codes[i] < 0x100
    ensures ModifiersAre(k, codes, KbdAfter(k, codes))
  {
    if codes != [] {
      var before, code := codes[..|codes| - 1], codes[|codes| - 1];
      ModifierHistory(k, before);
      NextKbdLaw(KbdAfter(k, before), code);
      LastStep(before, code, {0x2A, 0x36, 0xAA, 0xB6});
      LastStep(before, code, {0x1D, 0x9D});
      LastStep(before, code, {0x38, 0xB8});
      assert codes == before + [code];
      assert CountOf(codes, 0x3A) == CountOf(before, 0x3A) + if code == 0x3A then 1 else 0;
    }
  }

  /** Which scancodes do what: Enter is 0x1C, Backspace 0x0E; Tab, modifiers and releases are silent. */
  lemma ScancodeLaw(k: Kbd, code: nat)
    ensures Meaning(k, code).Enter? <==> code == 0x1C
    ensures Meaning(k, code).Erase? <==> code == 0x0E
    ensures Meaning(k, code).Silent? <==> code >= 0x80 || code in {0x0F, 0x1D, 0x2A, 0x36, 0x38, 0x3A}
    ensures Meaning(k, code).Beyond? <==> 60 <= code < 0x80
    ensures Meaning(k, code).Press? <==> code < 60 && code !in {0x0E, 0x0F, 0x1C, 0x1D, 0x2A, 0x36, 0x38, 0x3A}
  {
  }

  /** The digits and letters of the two tables, by keyboard row. */
  lemma TypewriterLaw(code: nat)
    requires code < 60
    ensures |SCANCODE_SET| == 60 && |SHIFT_SET| == 60
    ensures 2 <= code <= 11 ==> SCANCODE_SET[code] == "1234567890"[code - 2] && SHIFT_SET[code] == "!@#$%^&*()"[code - 2]
    ensures 16 <= code < 26 ==> SCANCODE_SET[code] == "qwertyuiop"[code - 16] && SHIFT_SET[code] == "QWERTYUIOP"[code - 16]
    ensures 30 <= code < 39 ==> SCANCODE_SET[code] == "asdfghjkl"[code - 30] && SHIFT_SET[code] == "ASDFGHJKL"[code - 30]
    ensures 44 <= code < 51 ==> SCANCODE_SET[code] == "zxcvbnm"[code - 44] && SHIFT_SET[code] == "ZXCVBNM"[code - 44]
  {
    OuterRows();
    InnerRows();
    if code < 16 {
      assert SCANCODE_SET[code] == DIGITS[code] && SHIFT_SET[code] == SHIFT_DIGITS[code];
      DigitRow(code);
    } else if code < 30 {
      assert SCANCODE_SET[code] == UPPER[code - 16] && SHIFT_SET[code] == SHIFT_UPPER[code - 16];
    } else if code < 44 {
      assert SCANCODE_SET[code] == HOME[code - 30] && SHIFT_SET[code] == SHIFT_HOME[code - 30];
    } else {
      assert SCANCODE_SET[code] == LOWER[code - 44] && SHIFT_SET[code] == SHIFT_LOWER[code - 44];
    }
  }

  lemma DigitRow(code: nat)
    requires code < 16
    ensures |DIGITS| == 16 && |SHIFT_DIGITS| == 16
    ensures 2 <= code <= 11 ==> DIGITS[code] == "1234567890"[code - 2] && SHIFT_DIGITS[code] == "!@#$%^&*()"[code - 2]
  {
  }

  const KEY_A := 0x1E
  const KEY_B := 0x30

  /** The two keys type an a and a b. */
  predicate KeysAB() {
    var plain := Kbd(false, false, false, false);
    Meaning(plain, KEY_A) == Press('a' as int) && Meaning(plain, KEY_B) == Press('b' as int)
  }

  lemma DecodeAB()
    ensures KeysAB()
  {
    OuterRows();
    InnerRows();
    assert SCANCODE_SET[KEY_A] == HOME[0];
    assert SCANCODE_SET[KEY_B] == LOWER[4];
  }
}
