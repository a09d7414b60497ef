/** Decoding of evdev key codes: the navigation meaning and the printable character of a key. */
module KeyMap {

  datatype Key = KeyNone | KeyUp | KeyDown | KeyLeft | KeyRight | KeyEnter | KeyBack | KeyTab | KeyBackspace
               | KeyShowPass

  type code = x: int | 0 <= x < 0x1_0000

  /** One key press under both readings; NO_RUNE is the zero rune of a key that prints nothing. */
  datatype Event = Event(key: Key, rune: char)

  const NO_RUNE: char := '\0'

  const ESC := 1
  const TAB := 15
  const ENTER := 28
  const SPACE := 57
  const LSHIFT := 42
  const RSHIFT := 54

  function MapKey(c: code): Key {
    match c
    case 103 => KeyUp
    case 33 => KeyUp
    case 108 => KeyDown
    case 45 => KeyDown
    case 105 => KeyLeft
    case 44 => KeyLeft
    case 106 => KeyRight
    case 46 => KeyRight
    case 28 => KeyEnter
    case 1 => KeyBack
    case 15 => KeyTab
    case 14 => KeyBackspace
    case 25 => KeyShowPass
    case _ => KeyNone
  }

  /** The symbol layer: three runs of codes. */
  function SymbolOf(c: code): char {
    if 183 <= c <= 202 then "!@#$%^&*()~`+-/\\{}[]"[c - 183]
    else if 209 <= c <= 217 then "=:;_?<>'\""[c - 209]
    else if 231 <= c <= 233 then ",.|"[c - 231]
    else NO_RUNE
  }

  function LetterOf(c: code): (r: char)
    ensures r == NO_RUNE || 'a' <= r <= 'z'
  {
    if 16 <= c <= 25 then "qwertyuiop"[c - 16]
    else if 30 <= c <= 38 then "asdfghjkl"[c - 30]
    else if 44 <= c <= 50 then "zxcvbnm"[c - 44]
    else NO_RUNE
  }

  function DigitOf(c: code): char {
    if 2 <= c <= 11 then "1234567890"[c - 2] else NO_RUNE
  }

  function PrintableRune(c: code, shift: bool): char {
    if SymbolOf(c) != NO_RUNE then SymbolOf(c)
    else if LetterOf(c) != NO_RUNE then
      var r := LetterOf(c);
      if shift then r - ('a' - 'A') else r
    else if DigitOf(c) != NO_RUNE then DigitOf(c)
    else if c == SPACE then ' '
    else NO_RUNE
  }

  predicate Repeatable(c: code) {
    c != ENTER && c != ESC && c != TAB
  }

  function Decode(c: code, shift: bool): Event {
    Event(MapKey(c), PrintableRune(c, shift))
  }

  /** A press that means something to some screen. */
  predicate Accepted(c: code, shift: bool) {
    Decode(c, shift) != Event(KeyNone, NO_RUNE)
  }

  /** The commit keys have one code each, and it is not repeatable; nothing else decodes to them. */
  lemma CommitKeys(c: code, shift: bool)
    ensures MapKey(c) == KeyEnter <==> c == ENTER
    ensures MapKey(c) == KeyBack <==> c == ESC
    ensures MapKey(c) == KeyTab <==> c == TAB
    ensures Repeatable(c) <==> MapKey(c) !in {KeyEnter, KeyBack, KeyTab}
  {}

  // ---- letters, shift and the arrows ----

  /** The letter keys print small letters without shift and the same letters, capital, with it; no other key
      prints a letter, and shift changes nothing else. */
  lemma ShiftIsCase(c: code)
    ensures var plain, shifted := PrintableRune(c, false), PrintableRune(c, true);
            && !('A' <= plain <= 'Z') && !('a' <= shifted <= 'z')
            && ('a' <= plain <= 'z' <==> 'A' <= shifted <= 'Z')
            && (if 'a' <= plain <= 'z' then plain as int - shifted as int == 32 else plain == shifted)
  {
    hide SymbolOf, DigitOf, LetterOf;
    Layers(c);
  }

  /** The d-pad letters carry both readings: f, x, z and c are up, down, left and right, p shows passwords. The
      real arrows, Enter, Esc, Tab and Backspace print nothing; no other key navigates. */
  lemma Navigation(c: code)
    ensures var r := PrintableRune(c, false); var k := MapKey(c);
            && (k == KeyUp <==> r == 'f' || c == 103) && (k == KeyDown <==> r == 'x' || c == 108)
            && (k == KeyLeft <==> r == 'z' || c == 105) && (k == KeyRight <==> r == 'c' || c == 106)
            && (k == KeyShowPass <==> r == 'p') && (k == KeyBackspace <==> c == 14)
            && (k == KeyEnter <==> c == 28) && (k == KeyBack <==> c == 1) && (k == KeyTab <==> c == 15)
            && (c in {103, 108, 105, 106, 14, 28, 1, 15} ==> r == NO_RUNE == PrintableRune(c, true))
  {
    hide SymbolOf, DigitOf, LetterOf;
    Layers(c);
    PadLetters(c);
    if c in {103, 108, 105, 106, 14, 28, 1, 15} {
      NoCharacter(c);
    }
  }

  lemma PadLetters(c: code)
    ensures (LetterOf(c) == 'f' <==> c == 33) && (LetterOf(c) == 'x' <==> c == 45)
    ensures (LetterOf(c) == 'z' <==> c == 44) && (LetterOf(c) == 'c' <==> c == 46) && (LetterOf(c) == 'p' <==> c == 25)
    ensures LetterOf(c) != NO_RUNE ==> SymbolOf(c) == NO_RUNE
  {}

  lemma NoCharacter(c: code)
    requires c in {103, 108, 105, 106, 14, 28, 1, 15}
    ensures SymbolOf(c) == DigitOf(c) == LetterOf(c) == NO_RUNE
  {}

  /** The number row prints its digits in order, one first and zero last; and the keys that were observed on the
      device print what they did there. */
  lemma Observed(c: code, shift: bool)
    ensures 2 <= c <= 11 ==> PrintableRune(c, shift) as int == 48 + (c - 1) % 10
    ensures PrintableRune(196, shift) == '-' && PrintableRune(197, shift) == '/'
    ensures PrintableRune(231, shift) == ',' && PrintableRune(232, shift) == '.' && PrintableRune(57, shift) == ' '
    ensures PrintableRune(30, shift) == (if shift then 'A' else 'a')
    ensures PrintableRune(19, shift) == (if shift then 'R' else 'r')
  {}

  // ---- the keypad types exactly the printable ASCII characters, each with one key ----

  lemma SymbolsApart(c: code, d: code)
    ensures SymbolOf(c) == SymbolOf(d) ==> c == d || SymbolOf(c) == NO_RUNE
  {
    if c <= 202 && d <= 202 {
      FirstRunApart(c, d);
    }
  }

  lemma FirstRunApart(c: code, d: code)
    requires c <= 202 && d <= 202
    ensures SymbolOf(c) == SymbolOf(d) ==> c == d || SymbolOf(c) == NO_RUNE
  {
    if c <= 192 {
      assert SymbolOf(c) == NO_RUNE || SymbolOf(c) in "!@#$%^&*()";
    }
  }

  lemma LettersApart(c: code, d: code)
    ensures LetterOf(c) == LetterOf(d) ==> c == d || LetterOf(c) == NO_RUNE
  {}

  predicate Alphanumeric(r: char) {
    'a' <= r <= 'z' || 'A' <= r <= 'Z' || '0' <= r <= '9'
  }

  predicate Printable(r: char) {
    ' ' <= r <= '~'
  }

  /** The layers print different kinds of characters. */
  lemma Layers(c: code)
    ensures SymbolOf(c) == NO_RUNE || (Printable(SymbolOf(c)) && SymbolOf(c) != ' ' && !Alphanumeric(SymbolOf(c)))
    ensures DigitOf(c) == NO_RUNE || '0' <= DigitOf(c) <= '9'
  {}

  lemma DigitsApart(c: code, d: code)
    ensures DigitOf(c) == DigitOf(d) ==> c == d || DigitOf(c) == NO_RUNE
  {}

  /** No two keys print the same character, under any shift. */
  lemma OneKey(c: code, d: code, shift: bool, other: bool)
    ensures PrintableRune(c, shift) == PrintableRune(d, other) ==> c == d || PrintableRune(c, shift) == NO_RUNE
    ensures PrintableRune(c, shift) == NO_RUNE || Printable(PrintableRune(c, shift))
  {
    hide SymbolOf, LetterOf, DigitOf;
    Layers(c);
    Layers(d);
    SymbolsApart(c, d);
    LettersApart(c, d);
    DigitsApart(c, d);
  }

  /** The key in a run of codes from `first` on that prints `r`, 0 if none does. */
  function KeyIn(row: string, first: nat, r: char): (c: nat)
    requires first > 0
    ensures c != 0 ==> first <= c < first + |row| && row[c - first] == r
    ensures c == 0 ==> r !in row
  {
    if row == "" then 0 else if row[0] == r then first else KeyIn(row[1..], first + 1, r)
  }

  lemma SymbolKey(r: char) returns (c: code)
    requires Printable(r) && r != ' ' && !Alphanumeric(r)
    ensures SymbolOf(c) == r
  {
    hide KeyIn;
    var i, j, k := KeyIn("!@#$%^&*()~`+-/\\{}[]", 183, r), KeyIn("=:;_?<>'\"", 209, r), KeyIn(",.|", 231, r);
    c := if i != 0 then i else if j != 0 then j else k;
  }

  lemma LetterKey(r: char) returns (c: code)
    requires 'a' <= r <= 'z'
    ensures LetterOf(c) == r
  {
    hide KeyIn;
    var i, j, k := KeyIn("qwertyuiop", 16, r), KeyIn("asdfghjkl", 30, r), KeyIn("zxcvbnm", 44, r);
    c := if i != 0 then i else if j != 0 then j else k;
  }

  lemma DigitKey(r: char) returns (c: code)
    requires '0' <= r <= '9'
    ensures DigitOf(c) == r
  {
    hide KeyIn;
    c := KeyIn("1234567890", 2, r);
  }

  /** Every printable ASCII character can be typed. */
  lemma SomeKey(r: char) returns (c: code, shift: bool)
    requires Printable(r)
    ensures PrintableRune(c, shift) == r
  {
    shift := 'A' <= r <= 'Z';
    if r == ' ' {
      c := SPACE;
    } else if Alphanumeric(r) {
      if '0' <= r <= '9' {
        c := DigitKey(r);
      } else {
        c := LetterKey(if shift then r + ('a' - 'A') else r);
      }
    } else {
      c := SymbolKey(r);
    }
  }
}
