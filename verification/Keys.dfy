/** Keys, scan codes and printable symbols of the PS/2 keyboard (kernel/devices/src/keyboard.cpp). */
module Keys {

  // Numbers of the keys that the translation table knows (kernel/devices/include/bolgenos-ng/keyboard.hpp:13).
  const KEY_NONE: nat := 0
  const KEY_F1: nat := 1
  const KEY_F2: nat := 2
  const KEY_F3: nat := 3
  const KEY_F5: nat := 5
  const KEY_F6: nat := 6
  const KEY_F7: nat := 7
  const KEY_F8: nat := 8
  const KEY_F9: nat := 9
  const KEY_F10: nat := 10
  const KEY_F11: nat := 11
  const KEY_F12: nat := 12
  const KEY_TAB: nat := 13
  const KEY_BACKSPACE: nat := 14
  const KEY_LALT: nat := 15
  const KEY_LSHIFT: nat := 16
  const KEY_LCTRL: nat := 17
  const KEY_RSHIFT: nat := 19
  const KEY_BACK_TICK: nat := 21
  const KEY_0: nat := 22
  const KEY_1: nat := 23
  const KEY_2: nat := 24
  const KEY_3: nat := 25
  const KEY_4: nat := 26
  const KEY_5: nat := 27
  const KEY_6: nat := 28
  const KEY_7: nat := 29
  const KEY_8: nat := 30
  const KEY_9: nat := 31
  const KEY_A: nat := 32
  const KEY_B: nat := 33
  const KEY_C: nat := 34
  const KEY_D: nat := 35
  const KEY_E: nat := 36
  const KEY_F: nat := 37
  const KEY_G: nat := 38
  const KEY_H: nat := 39
  const KEY_I: nat := 40
  const KEY_J: nat := 41
  const KEY_K: nat := 42
  const KEY_L: nat := 43
  const KEY_M: nat := 44
  const KEY_N: nat := 45
  const KEY_O: nat := 46
  const KEY_P: nat := 47
  const KEY_Q: nat := 48
  const KEY_R: nat := 49
  const KEY_S: nat := 50
  const KEY_T: nat := 51
  const KEY_U: nat := 52
  const KEY_V: nat := 53
  const KEY_W: nat := 54
  const KEY_X: nat := 55
  const KEY_Y: nat := 56
  const KEY_Z: nat := 57
  const KEY_SPACE: nat := 58
  const KEY_COMMA: nat := 59
  const KEY_DOT: nat := 60
  const KEY_SLASH: nat := 61
  const KEY_SEMICOLON: nat := 62
  const KEY_MINUS: nat := 63
  const KEY_APOS: nat := 64
  const KEY_SQBRACKETL: nat := 65
  const KEY_EQUAL: nat := 66
  const KEY_ENTER: nat := 67
  const KEY_SQBRACKETR: nat := 68
  const KEY_BACKSLASH: nat := 69
  const KEY_NUM_0: nat := 70
  const KEY_NUM_1: nat := 71
  const KEY_NUM_2: nat := 72
  const KEY_NUM_3: nat := 73
  const KEY_NUM_4: nat := 74
  const KEY_NUM_5: nat := 75
  const KEY_NUM_6: nat := 76
  const KEY_NUM_7: nat := 77
  const KEY_NUM_8: nat := 78
  const KEY_NUM_9: nat := 79
  const KEY_NUM_DOT: nat := 80
  const KEY_NUM_PLUS: nat := 81
  const KEY_NUM_MINUS: nat := 82
  const KEY_NUM_STAR: nat := 83
  const KEY_ESCAPE: nat := 86
  const KEY_CAPSLOCK: nat := 87
  const KEY_NUMLOCK: nat := 88
  const KEY_SCROLLLOCK: nat := 89
  const KEY_MAX: nat := 126

  /** Prefix of a release code. */
  const RELEASE_BYTE: nat := 0xf0

  /** The key of a one-byte make code of code set 2; KEY_NONE for every other byte. */
  function Translate(byte: nat): (key: nat)
    ensures key < KEY_MAX
    ensures byte == RELEASE_BYTE ==> key == KEY_NONE
  {
    match byte
    case 0x01 => KEY_F9
    case 0x03 => KEY_F5
    case 0x04 => KEY_F3
    case 0x05 => KEY_F1
    case 0x06 => KEY_F2
    case 0x07 => KEY_F12
    case 0x09 => KEY_F10
    case 0x0a => KEY_F8
    case 0x0b => KEY_F6
    case 0x0d => KEY_TAB
    case 0x0e => KEY_BACK_TICK
    case 0x11 => KEY_LALT
    case 0x12 => KEY_LSHIFT
    case 0x14 => KEY_LCTRL
    case 0x15 => KEY_Q
    case 0x16 => KEY_1
    case 0x1a => KEY_Z
    case 0x1b => KEY_S
    case 0x1c => KEY_A
    case 0x1d => KEY_W
    case 0x1e => KEY_2
    case 0x21 => KEY_C
    case 0x22 => KEY_X
    case 0x23 => KEY_D
    case 0x24 => KEY_E
    case 0x25 => KEY_4
    case 0x26 => KEY_3
    case 0x29 => KEY_SPACE
    case 0x2a => KEY_V
    case 0x2b => KEY_F
    case 0x2c => KEY_T
    case 0x2d => KEY_R
    case 0x2e => KEY_5
    case 0x31 => KEY_N
    case 0x32 => KEY_B
    case 0x33 => KEY_H
    case 0x34 => KEY_G
    case 0x35 => KEY_Y
    case 0x36 => KEY_6
    case 0x3a => KEY_M
    case 0x3b => KEY_J
    case 0x3c => KEY_U
    case 0x3d => KEY_7
    case 0x3e => KEY_8
    case 0x41 => KEY_COMMA
    case 0x42 => KEY_K
    case 0x43 => KEY_I
    case 0x44 => KEY_O
    case 0x45 => KEY_0
    case 0x46 => KEY_9
    case 0x49 => KEY_DOT
    case 0x4a => KEY_SLASH
    case 0x4b => KEY_L
    case 0x4c => KEY_SEMICOLON
    case 0x4d => KEY_P
    case 0x4e => KEY_MINUS
    case 0x52 => KEY_APOS
    case 0x54 => KEY_SQBRACKETL
    case 0x55 => KEY_EQUAL
    case 0x58 => KEY_CAPSLOCK
    case 0x59 => KEY_RSHIFT
    case 0x5a => KEY_ENTER
    case 0x5b => KEY_SQBRACKETR
    case 0x5d => KEY_BACKSLASH
    case 0x66 => KEY_BACKSPACE
    case 0x69 => KEY_NUM_1
    case 0x6b => KEY_NUM_4
    case 0x6c => KEY_NUM_7
    case 0x70 => KEY_NUM_0
    case 0x71 => KEY_NUM_DOT
    case 0x72 => KEY_NUM_2
    case 0x73 => KEY_NUM_5
    case 0x74 => KEY_NUM_6
    case 0x75 => KEY_NUM_8
    case 0x76 => KEY_ESCAPE
    case 0x77 => KEY_NUMLOCK
    case 0x78 => KEY_F11
    case 0x79 => KEY_NUM_PLUS
    case 0x7a => KEY_NUM_3
    case 0x7b => KEY_NUM_MINUS
    case 0x7c => KEY_NUM_STAR
    case 0x7d => KEY_NUM_9
    case 0x7e => KEY_SCROLLLOCK
    case 0x83 => KEY_F7
    case _ => KEY_NONE
  }

  /** ASCII code of the symbol that a key prints; 0 if it prints none. */
  function ToPrintable(key: nat): (symbol: nat)
    ensures key == KEY_LSHIFT || key == KEY_NONE ==> symbol == 0
  {
    if KEY_A <= key <= KEY_Z then 97 + (key - KEY_A)
    else if KEY_0 <= key <= KEY_9 then 48 + (key - KEY_0)
    else if key == KEY_SPACE then 32
    else if key == KEY_BACK_TICK then 96
    else if key == KEY_COMMA then 44
    else if key == KEY_DOT then 46
    else if key == KEY_SLASH then 47
    else if key == KEY_SEMICOLON then 59
    else if key == KEY_MINUS then 45
    else if key == KEY_APOS then 39
    else if key == KEY_SQBRACKETL then 91
    else if key == KEY_EQUAL then 61
    else if key == KEY_ENTER then 10
    else if key == KEY_SQBRACKETR then 93
    else if key == KEY_BACKSLASH then 92
    else 0
  }

  /** The symbol that the key prints while the left shift is held. */
  function ApplyLshift(symbol: nat): nat {
    if 97 <= symbol <= 122 then 65 + (symbol - 97)
    else match symbol
      case 48 => 41
      case 49 => 33
      case 50 => 64
      case 51 => 35
      case 52 => 36
      case 53 => 37
      case 54 => 94
      case 55 => 38
      case 56 => 42
      case 57 => 40
      case 96 => 126
      case 44 => 60
      case 46 => 62
      case 47 => 63
      case 59 => 58
      case 45 => 95
      case 39 => 34
      case 91 => 123
      case 93 => 125
      case 61 => 43
      case 92 => 124
      case _ => symbol
  }

  function Symbol(key: nat, shift: bool): nat {
    if shift then ApplyLshift(ToPrintable(key)) else ToPrintable(key)
  }

  // ----- the layout, stated a second time ----------------------------------------

  /** Make code of a key; 0 for a number that is no key of the table. */
  function CodeOf(key: nat): nat {
    if key == KEY_F1 then 0x05
    else if key == KEY_F2 then 0x06
    else if key == KEY_F3 then 0x04
    else if key == KEY_F5 then 0x03
    else if key == KEY_F6 then 0x0b
    else if key == KEY_F7 then 0x83
    else if key == KEY_F8 then 0x0a
    else if key == KEY_F9 then 0x01
    else if key == KEY_F10 then 0x09
    else if key == KEY_F11 then 0x78
    else if key == KEY_F12 then 0x07
    else if key == KEY_TAB then 0x0d
    else if key == KEY_BACKSPACE then 0x66
    else if key == KEY_LALT then 0x11
    else if key == KEY_LSHIFT then 0x12
    else if key == KEY_LCTRL then 0x14
    else if key == KEY_RSHIFT then 0x59
    else if key == KEY_ESCAPE then 0x76
    else if key == KEY_CAPSLOCK then 0x58
    else if key == KEY_NUMLOCK then 0x77
    else if key == KEY_SCROLLLOCK then 0x7e
    else if key == KEY_NUM_0 then 0x70
    else if key == KEY_NUM_1 then 0x69
    else if key == KEY_NUM_2 then 0x72
    else if key == KEY_NUM_3 then 0x7a
    else if key == KEY_NUM_4 then 0x6b
    else if key == KEY_NUM_5 then 0x73
    else if key == KEY_NUM_6 then 0x74
    else if key == KEY_NUM_7 then 0x6c
    else if key == KEY_NUM_8 then 0x75
    else if key == KEY_NUM_9 then 0x7d
    else if key == KEY_NUM_DOT then 0x71
    else if key == KEY_NUM_PLUS then 0x79
    else if key == KEY_NUM_MINUS then 0x7b
    else if key == KEY_NUM_STAR then 0x7c
    else if key == KEY_A then 0x1c
    else if key == KEY_B then 0x32
    else if key == KEY_C then 0x21
    else if key == KEY_D then 0x23
    else if key == KEY_E then 0x24
    else if key == KEY_F then 0x2b
    else if key == KEY_G then 0x34
    else if key == KEY_H then 0x33
    else if key == KEY_I then 0x43
    else if key == KEY_J then 0x3b
    else if key == KEY_K then 0x42
    else if key == KEY_L then 0x4b
    else if key == KEY_M then 0x3a
    else if key == KEY_N then 0x31
    else if key == KEY_O then 0x44
    else if key == KEY_P then 0x4d
    else if key == KEY_Q then 0x15
    else if key == KEY_R then 0x2d
    else if key == KEY_S then 0x1b
    else if key == KEY_T then 0x2c
    else if key == KEY_U then 0x3c
    else if key == KEY_V then 0x2a
    else if key == KEY_W then 0x1d
    else if key == KEY_X then 0x22
    else if key == KEY_Y then 0x35
    else if key == KEY_Z then 0x1a
    else if key == KEY_0 then 0x45
    else if key == KEY_1 then 0x16
    else if key == KEY_2 then 0x1e
    else if key == KEY_3 then 0x26
    else if key == KEY_4 then 0x25
    else if key == KEY_5 then 0x2e
    else if key == KEY_6 then 0x36
    else if key == KEY_7 then 0x3d
    else if key == KEY_8 then 0x3e
    else if key == KEY_9 then 0x46
    else if key == KEY_SPACE then 0x29
    else if key == KEY_BACK_TICK then 0x0e
    else if key == KEY_COMMA then 0x41
    else if key == KEY_DOT then 0x49
    else if key == KEY_SLASH then 0x4a
    else if key == KEY_SEMICOLON then 0x4c
    else if key == KEY_MINUS then 0x4e
    else if key == KEY_APOS then 0x52
    else if key == KEY_SQBRACKETL then 0x54
    else if key == KEY_EQUAL then 0x55
    else if key == KEY_ENTER then 0x5a
    else if key == KEY_SQBRACKETR then 0x5b
    else if key == KEY_BACKSLASH then 0x5d
    else 0
  }

  /** The table and the make codes are inverse to each other, so different codes are different keys. */
  lemma TranslateInverts(byte: nat)
    ensures Translate(byte) != KEY_NONE ==> CodeOf(Translate(byte)) == byte
  {
  }

  lemma CodeInverts(key: nat)
    ensures CodeOf(key) != 0 ==> Translate(CodeOf(key)) == key
  {
  }

  /** What a make code types: without the left shift, and with it. */
  function Typed(byte: nat): (char, char) {
    match byte
    case 0x1c => ('a', 'A')
    case 0x32 => ('b', 'B')
    case 0x21 => ('c', 'C')
    case 0x23 => ('d', 'D')
    case 0x24 => ('e', 'E')
    case 0x2b => ('f', 'F')
    case 0x34 => ('g', 'G')
    case 0x33 => ('h', 'H')
    case 0x43 => ('i', 'I')
    case 0x3b => ('j', 'J')
    case 0x42 => ('k', 'K')
    case 0x4b => ('l', 'L')
    case 0x3a => ('m', 'M')
    case 0x31 => ('n', 'N')
    case 0x44 => ('o', 'O')
    case 0x4d => ('p', 'P')
    case 0x15 => ('q', 'Q')
    case 0x2d => ('r', 'R')
    case 0x1b => ('s', 'S')
    case 0x2c => ('t', 'T')
    case 0x3c => ('u', 'U')
    case 0x2a => ('v', 'V')
    case 0x1d => ('w', 'W')
    case 0x22 => ('x', 'X')
    case 0x35 => ('y', 'Y')
    case 0x1a => ('z', 'Z')
    case 0x45 => ('0', ')')
    case 0x16 => ('1', '!')
    case 0x1e => ('2', '@')
    case 0x26 => ('3', '#')
    case 0x25 => ('4', '$')
    case 0x2e => ('5', '%')
    case 0x36 => ('6', '^')
    case 0x3d => ('7', '&')
    case 0x3e => ('8', '*')
    case 0x46 => ('9', '(')
    case 0x29 => (' ', ' ')
    case 0x0e => ('`', '~')
    case 0x41 => (',', '<')
    case 0x49 => ('.', '>')
    case 0x4a => ('/', '?')
    case 0x4c => (';', ':')
    case 0x4e => ('-', '_')
    case 0x52 => ('\'', '\"')
    case 0x54 => ('[', '{')
    case 0x55 => ('=', '+')
    case 0x5a => ('\n', '\n')
    case 0x5b => (']', '}')
    case 0x5d => ('\\', '|')
    case _ => ('\0', '\0')
  }

  /** Translating a byte and looking its symbol up is typing by the layout. */
  lemma TypedPlain(byte: nat)
    ensures ToPrintable(Translate(byte)) == Typed(byte).0 as int
  {
  }

  /** So it is with the left shift. */
  lemma TypedShifted(byte: nat)
    ensures ToPrintable(Translate(byte)) != 0 ==> ApplyLshift(ToPrintable(Translate(byte))) == Typed(byte).1 as int
  {
  }

  lemma ShiftCode(byte: nat)
    ensures Translate(byte) == KEY_LSHIFT <==> byte == 0x12
  {
  }
}
