/**
 * The formatting backend of the generator: numerals as Python formats them and
 * the xterm / DEC VT control sequences the generated files are made of.
 * Every function here is a pure string builder over small integers.
 */
module Terminal {

  /** Width of both tape tracks on screen (WIDTH). */
  const WIDTH: nat := 120

  const ESC: char := '\U{1B}'

  /** Control Sequence Introducer, ESC [ (section 5.4 of ECMA-48). */
  const CSI: string := [ESC, '[']

  const DecimalDigits: string := "0123456789"
  const LowerHexDigits: string := "0123456789abcdef"
  const UpperHexDigits: string := "0123456789ABCDEF"

  // ---------------------------------------------------------------------------
  // Numerals

  /** A digit table: at least two digits, none repeated; the base is its length. */
  predicate IsDigitTable(digits: string) {
    |digits| >= 2 && forall i, j :: 0 <= i < j < |digits| ==> digits[i] != digits[j]
  }

  /** The numeral of n in base |digits| without leading zeros, as Python's
      str(n), hex(n)[2:] and format(n, 'X') write it. */
  function Numeral(n: nat, digits: string): (r: string)
    requires |digits| >= 2
    ensures 1 <= |r|
    decreases n
  {
    if n < |digits| then [digits[n]]
    else Numeral(n / |digits|, digits) + [digits[n % |digits|]]
  }

  /** Position of c in the digit table (|digits| when c is not a digit). */
  function DigitIndex(digits: string, c: char): (i: nat)
    ensures i <= |digits|
    ensures i < |digits| ==> digits[i] == c
    ensures c in digits ==> i < |digits|
  {
    if digits == [] then 0
    else if digits[0] == c then 0
    else 1 + DigitIndex(digits[1..], c)
  }

  /** The value a numeral denotes: the inverse of Numeral. */
  function NumeralValue(s: string, digits: string): nat {
    if s == [] then 0
    else NumeralValue(s[..|s| - 1], digits) * |digits| + DigitIndex(digits, s[|s| - 1])
  }

  lemma DigitIndexOfDigit(digits: string, i: nat)
    requires IsDigitTable(digits) && i < |digits|
    ensures DigitIndex(digits, digits[i]) == i
  {
    var j := DigitIndex(digits, digits[i]);
    assert digits[j] == digits[i];
  }

  /** Reading back a numeral gives the number written. */
  lemma {:induction false} NumeralRoundTrip(n: nat, digits: string)
    requires IsDigitTable(digits)
    ensures NumeralValue(Numeral(n, digits), digits) == n
    decreases n
  {
    var b := |digits|;
    if n < b {
      NumeralOneDigit(n, digits);
    } else {
      DivSmaller(n, b);
      NumeralRoundTrip(n / b, digits);
      NumeralLastDigit(n, digits);
      DivMod(n, b);
    }
  }

  lemma NumeralOneDigit(n: nat, digits: string)
    requires IsDigitTable(digits) && n < |digits|
    ensures NumeralValue(Numeral(n, digits), digits) == n
  {
    DigitIndexOfDigit(digits, n);
    assert Numeral(n, digits)[..0] == [];
  }

  lemma {:induction false} NumeralFirstDigit(n: nat, digits: string)
    requires |digits| >= 2
    ensures Numeral(n, digits)[0] in digits
    decreases n
  {
    if n >= |digits| {
      DivSmaller(n, |digits|);
      NumeralFirstDigit(n / |digits|, digits);
    }
  }

  /** Peeling off the least significant digit of a numeral. */
  lemma NumeralLastDigit(n: nat, digits: string)
    requires IsDigitTable(digits) && n >= |digits|
    ensures NumeralValue(Numeral(n, digits), digits)
         == NumeralValue(Numeral(n / |digits|, digits), digits) * |digits| + n % |digits|
  {
    var b := |digits|;
    var r := Numeral(n, digits);
    var front := Numeral(n / b, digits);
    DigitIndexOfDigit(digits, n % b);
    assert r[..|r| - 1] == front;
  }

  lemma DivSmaller(n: nat, b: nat)
    requires b >= 2 && n >= b
    ensures 1 <= n / b < n
  {
  }

  lemma DivMod(n: nat, b: nat)
    requires b > 0
    ensures (n / b) * b + n % b == n
  {
  }

  /** Different numbers have different numerals. */
  lemma NumeralInjective(a: nat, b: nat, digits: string)
    requires IsDigitTable(digits)
    ensures Numeral(a, digits) == Numeral(b, digits) ==> a == b
  {
    NumeralRoundTrip(a, digits);
    NumeralRoundTrip(b, digits);
  }

  /** Leading zero digits do not change the value of a numeral. */
  lemma {:induction false} LeadingZerosValue(z: nat, s: string, digits: string)
    requires IsDigitTable(digits)
    ensures NumeralValue(Repeat(digits[0], z) + s, digits) == NumeralValue(s, digits)
    decreases |s|, z
  {
    var t := Repeat(digits[0], z) + s;
    if s == [] {
      assert t == Repeat(digits[0], z);
      if z > 0 {
        assert t[..|t| - 1] == Repeat(digits[0], z - 1) + [];
        LeadingZerosValue(z - 1, [], digits);
        DigitIndexOfDigit(digits, 0);
      }
    } else {
      assert t[..|t| - 1] == Repeat(digits[0], z) + s[..|s| - 1];
      LeadingZerosValue(z, s[..|s| - 1], digits);
    }
  }

  function Repeat(c: char, n: nat): (r: string)
    ensures |r| == n && forall k :: 0 <= k < n ==> r[k] == c
  {
    if n == 0 then [] else [c] + Repeat(c, n - 1)
  }

  /** Right-justify s in a field of the given width (Python's format width with fill). */
  function PadLeft(s: string, width: nat, fill: char): (r: string)
    ensures |r| == if |s| < width then width else |s|
  {
    if |s| < width then Repeat(fill, width - |s|) + s else s
  }

  /** Left-justify s in a field of the given width (Python's f'{msg:30}' on a str). */
  function PadRight(s: string, width: nat, fill: char): (r: string)
    ensures |r| == if |s| < width then width else |s|
  {
    if |s| < width then s + Repeat(fill, width - |s|) else s
  }

  /** Decimal, as an f-string renders a non-negative int. */
  function Dec(n: nat): string {
    Numeral(n, DecimalDigits)
  }

  /** hex(n)[2:]: lower-case hexadecimal without the 0x prefix. */
  function LowerHex(n: nat): string {
    Numeral(n, LowerHexDigits)
  }

  /** f'{n:04X}': upper-case hexadecimal zero-padded to four characters; for a
      negative n Python writes the sign first and counts it in the width. */
  function Hex04(n: int): string {
    if n >= 0 then PadLeft(Numeral(n, UpperHexDigits), 4, '0')
    else "-" + PadLeft(Numeral(-n, UpperHexDigits), 3, '0')
  }

  lemma DigitTables()
    ensures IsDigitTable(DecimalDigits)
    ensures IsDigitTable(LowerHexDigits)
    ensures IsDigitTable(UpperHexDigits)
  {
  }

  /** Distinct lower-case hex names for distinct counters. */
  lemma LowerHexInjective(a: nat, b: nat)
    ensures LowerHex(a) == LowerHex(b) ==> a == b
  {
    DigitTables();
    NumeralInjective(a, b, LowerHexDigits);
  }

  /** A zero-padded numeral still reads back as the number. */
  lemma PaddedRoundTrip(n: nat, width: nat)
    ensures NumeralValue(PadLeft(Numeral(n, UpperHexDigits), width, '0'), UpperHexDigits) == n
  {
    DigitTables();
    var s := Numeral(n, UpperHexDigits);
    var p := PadLeft(s, width, '0');
    if |s| < width {
      LeadingZerosValue(width - |s|, s, UpperHexDigits);
    }
    NumeralRoundTrip(n, UpperHexDigits);
  }

  /** Hex04 never renders two numbers alike. */
  lemma Hex04Injective(a: int, b: int)
    ensures Hex04(a) == Hex04(b) ==> a == b
  {
    var ha, hb := Hex04(a), Hex04(b);
    if a >= 0 && b >= 0 {
      assert ha == PadLeft(Numeral(a, UpperHexDigits), 4, '0');
      assert hb == PadLeft(Numeral(b, UpperHexDigits), 4, '0');
      PaddedInjective(a, b, 4);
    } else if a < 0 && b < 0 {
      assert ha == "-" + PadLeft(Numeral(-a, UpperHexDigits), 3, '0');
      assert hb == "-" + PadLeft(Numeral(-b, UpperHexDigits), 3, '0');
      NegativeHex04Injective(-a, -b);
    } else if a >= 0 {
      assert ha == PadLeft(Numeral(a, UpperHexDigits), 4, '0');
      assert hb == "-" + PadLeft(Numeral(-b, UpperHexDigits), 3, '0');
      SignNotDigit(a, -b);
    } else {
      assert hb == PadLeft(Numeral(b, UpperHexDigits), 4, '0');
      assert ha == "-" + PadLeft(Numeral(-a, UpperHexDigits), 3, '0');
      SignNotDigit(b, -a);
    }
  }

  lemma NegativeHex04Injective(a: nat, b: nat)
    ensures "-" + PadLeft(Numeral(a, UpperHexDigits), 3, '0') == "-" + PadLeft(Numeral(b, UpperHexDigits), 3, '0')
            ==> a == b
  {
    var pa := PadLeft(Numeral(a, UpperHexDigits), 3, '0');
    var pb := PadLeft(Numeral(b, UpperHexDigits), 3, '0');
    if "-" + pa == "-" + pb {
      SamePrefixRest("-", pa, pb);
      PaddedInjective(a, b, 3);
    }
  }

  /** A non-negative rendering starts with a digit, a negative one with '-'. */
  lemma SignNotDigit(a: nat, b: nat)
    ensures PadLeft(Numeral(a, UpperHexDigits), 4, '0') != "-" + PadLeft(Numeral(b, UpperHexDigits), 3, '0')
  {
    var p := PadLeft(Numeral(a, UpperHexDigits), 4, '0');
    var q := "-" + PadLeft(Numeral(b, UpperHexDigits), 3, '0');
    NumeralFirstDigit(a, UpperHexDigits);
    assert p[0] in UpperHexDigits;
    assert p[0] != q[0];
  }

  lemma PaddedInjective(a: nat, b: nat, width: nat)
    ensures PadLeft(Numeral(a, UpperHexDigits), width, '0') == PadLeft(Numeral(b, UpperHexDigits), width, '0')
            ==> a == b
  {
    PaddedRoundTrip(a, width);
    PaddedRoundTrip(b, width);
  }

  /** Cancelling a common suffix. */
  lemma SameSuffixRest(x: string, y: string, t: string)
    requires x + t == y + t
    ensures x == y
  {
    assert x == (x + t)[..|x|];
    assert y == (y + t)[..|y|];
  }

  /** Cancelling a common prefix. */
  lemma SamePrefixRest(p: string, x: string, y: string)
    requires p + x == p + y
    ensures x == y
  {
    assert x == (p + x)[|p|..];
    assert y == (p + y)[|p|..];
  }

  /** The small decimals that occur in the generated sequences. */
  lemma SmallDecimals()
    ensures Dec(1) == "1" && Dec(2) == "2" && Dec(3) == "3" && Dec(4) == "4" && Dec(5) == "5"
    ensures Dec(60) == "60" && Dec(119) == "119" && Dec(120) == "120"
  {
    assert Dec(6) == "6";
    assert Dec(11) == Dec(1) + "1";
    assert Dec(12) == Dec(1) + "2";
    assert Dec(60) == Dec(6) + "0";
    assert Dec(119) == Dec(11) + "9";
    assert Dec(120) == Dec(12) + "0";
  }

  // ---------------------------------------------------------------------------
  // Control sequences

  /** ED, erase in display, whole screen (section 8.3.39 of ECMA-48). */
  function Clear(): string {
    CSI + "2J"
  }

  /** EL, erase in line, whole line (section 8.3.41 of ECMA-48). */
  function ClearLine(): string {
    CSI + "2K"
  }

  /** DECCRA: copy the rectangle top..bottom x left..right of page 1 to
      (targety, targetx) of page 1. */
  function CopyRect(top: nat, left: nat, bottom: nat, right: nat, targety: nat, targetx: nat): string {
    CSI + Dec(top) + ";" + Dec(left) + ";" + Dec(bottom) + ";" + Dec(right) + ";1;"
      + Dec(targety) + ";" + Dec(targetx) + ";1$v"
  }

  /** CUP, cursor position (section 8.3.21 of ECMA-48). */
  function MovCursor(targety: nat, targetx: nat): string {
    CSI + Dec(targety) + ";" + Dec(targetx) + "H"
  }

  /** DECRQCRA: request the checksum of cell (line, WIDTH/2), with request id = line. */
  function GetChecksum(line: nat): string {
    CSI + Dec(line) + ";1;" + Dec(line) + ";" + Dec(WIDTH / 2) + ";" + Dec(line) + ";"
      + Dec(WIDTH / 2) + "*y"
  }

  /** The DECCKSR reply the terminal sends for a cell holding sym after
      request idx: DCS idx ! ~ xxxx ST with xxxx = 0x10000 - ord(sym). */
  function Checksum(sym: char, idx: nat): string {
    [ESC, 'P'] + Dec(idx) + "!~" + Hex04(0x10000 - sym as int) + [ESC, '\\']
  }

  /** Shift the track on line `line` one cell to the left (the head moves right)
      and fill the vacated rightmost cell with a blank. */
  function MovRight(line: nat): string {
    CopyRect(line, 2, line, WIDTH, line, 1) + MovCursor(line, WIDTH) + "#"
  }

  /** Shift the track one cell to the right (the head moves left) and fill the
      vacated leftmost cell with a blank. */
  function MovLeft(line: nat): string {
    CopyRect(line, 1, line, WIDTH - 1, line, 2) + MovCursor(line, 1) + "#"
  }

  /** Write sym under the head of track `line`, then shift for 'L' or 'R';
      any other move leaves the track where it is. */
  function ModifyBand(line: nat, sym: char, mov: char): string {
    var sequence := MovCursor(line, WIDTH / 2) + [sym] + MovCursor(3, 1);
    if mov == 'L' then sequence + MovLeft(line)
    else if mov == 'R' then sequence + MovRight(line)
    else sequence
  }

  /** The step program: both tracks' writes and moves, then both checksum requests. */
  function CreateTapewriter(sym1: char, mov1: char, sym2: char, mov2: char): string {
    var bandModification := ModifyBand(1, sym1, mov1) + ModifyBand(2, sym2, mov2);
    bandModification + MovCursor(3, 1) + (GetChecksum(1) + GetChecksum(2))
  }

  /** The init file: clear, two blank tracks, the prompt, cursor under track 1's head. */
  function InitFile(prompt: string): string {
    var empty := Repeat('#', WIDTH);
    Clear()
      + MovCursor(1, 1) + empty
      + MovCursor(2, 1) + empty
      + MovCursor(3, 1) + prompt
      + MovCursor(1, WIDTH / 2)
  }

  /** The postinit file: mark the head column, then request both checksums. */
  function PostInitFile(): string {
    MovCursor(3, WIDTH / 2) + ClearLine() + "^" + MovCursor(3, 1) + GetChecksum(1) + GetChecksum(2)
  }

  /** The halt program: the message padded to 30 columns and the close hint. */
  function SendMessage(msg: string): string {
    MovCursor(3, 1) + PadRight(msg, 30, ' ')
      + MovCursor(4, 1) + "Press ^C to close"
      + MovCursor(5, 1)
  }

  // ---------------------------------------------------------------------------
  // Properties of the rendered strings

  /** The erase and cursor-position sequences, character for character:
      every cursor position the generated programs use. */
  lemma EraseAndCursorSequences()
    ensures Clear() == "\U{1B}[2J" && ClearLine() == "\U{1B}[2K"
    ensures MovCursor(1, 1) == "\U{1B}[1;1H" && MovCursor(2, 1) == "\U{1B}[2;1H"
    ensures MovCursor(3, 1) == "\U{1B}[3;1H" && MovCursor(4, 1) == "\U{1B}[4;1H"
    ensures MovCursor(5, 1) == "\U{1B}[5;1H"
    ensures MovCursor(1, WIDTH / 2) == "\U{1B}[1;60H" && MovCursor(2, WIDTH / 2) == "\U{1B}[2;60H"
    ensures MovCursor(3, WIDTH / 2) == "\U{1B}[3;60H"
    ensures MovCursor(1, WIDTH) == "\U{1B}[1;120H" && MovCursor(2, WIDTH) == "\U{1B}[2;120H"
  {
    SmallDecimals();
  }

  /** The checksum requests, character for character. */
  lemma ChecksumRequestSequences()
    ensures GetChecksum(1) == "\U{1B}[1;1;1;60;1;60*y"
    ensures GetChecksum(2) == "\U{1B}[2;1;2;60;2;60*y"
  {
    SmallDecimals();
  }

  /** Shifting track 1 to the left (head moves right), character for character. */
  lemma ShiftLeftTrack1()
    ensures MovRight(1) == "\U{1B}[1;2;1;120;1;1;1;1$v\U{1B}[1;120H#"
  {
    SmallDecimals();
  }

  /** Shifting track 2 to the left, character for character. */
  lemma ShiftLeftTrack2()
    ensures MovRight(2) == "\U{1B}[2;2;2;120;1;2;1;1$v\U{1B}[2;120H#"
  {
    SmallDecimals();
  }

  /** Shifting track 1 to the right (head moves left), character for character. */
  lemma ShiftRightTrack1()
    ensures MovLeft(1) == "\U{1B}[1;1;1;119;1;1;2;1$v\U{1B}[1;1H#"
  {
    SmallDecimals();
  }

  /** Shifting track 2 to the right, character for character. */
  lemma ShiftRightTrack2()
    ensures MovLeft(2) == "\U{1B}[2;1;2;119;1;2;2;1$v\U{1B}[2;1H#"
  {
    SmallDecimals();
  }

  /** One step of Numeral: the last digit is n mod the base. */
  lemma NumeralStep(n: nat, digits: string)
    requires |digits| >= 2 && n >= |digits|
    ensures Numeral(n, digits) == Numeral(n / |digits|, digits) + [digits[n % |digits|]]
  {
  }

  /** Four-digit upper-case hex, digit by digit. */
  lemma FourHexDigits(n: nat)
    requires 0x1000 <= n < 0x10000
    ensures Hex04(n) == [UpperHexDigits[n / 0x1000], UpperHexDigits[n / 0x100 % 16],
                         UpperHexDigits[n / 0x10 % 16], UpperHexDigits[n % 16]]
  {
    var u := UpperHexDigits;
    assert |u| == 16;
    NumeralStep(n, u);
    NumeralStep(n / 16, u);
    NumeralStep(n / 0x100, u);
    assert n / 16 / 16 == n / 0x100;
    assert n / 0x100 / 16 == n / 0x1000;
    assert Numeral(n / 0x1000, u) == [u[n / 0x1000]];
  }

  lemma AlphabetHex()
    ensures Hex04(0x10000 - '0' as int) == "FFD0"
    ensures Hex04(0x10000 - '1' as int) == "FFCF"
    ensures Hex04(0x10000 - '#' as int) == "FFDD"
  {
    HexFFD0();
    HexFFCF();
    HexFFDD();
  }

  lemma HexFFD0() ensures Hex04(0xFFD0) == "FFD0" {
    FourHexDigits(0xFFD0);
  }

  lemma HexFFCF() ensures Hex04(0xFFCF) == "FFCF" {
    FourHexDigits(0xFFCF);
  }

  lemma HexFFDD() ensures Hex04(0xFFDD) == "FFDD" {
    FourHexDigits(0xFFDD);
  }

  /** The replies for the three tape symbols: FFD0 for '0', FFCF for '1', FFDD for '#'. */
  lemma AlphabetChecksums(idx: nat)
    ensures Checksum('0', idx) == [ESC, 'P'] + Dec(idx) + "!~" + "FFD0" + [ESC, '\\']
    ensures Checksum('1', idx) == [ESC, 'P'] + Dec(idx) + "!~" + "FFCF" + [ESC, '\\']
    ensures Checksum('#', idx) == [ESC, 'P'] + Dec(idx) + "!~" + "FFDD" + [ESC, '\\']
  {
    AlphabetHex();
  }

  /** For a fixed request id, the reply identifies the symbol. */
  lemma ChecksumInjective(a: char, b: char, idx: nat)
    ensures Checksum(a, idx) == Checksum(b, idx) ==> a == b
  {
    var pre := [ESC, 'P'] + Dec(idx) + "!~";
    var ha := Hex04(0x10000 - a as int);
    var hb := Hex04(0x10000 - b as int);
    if Checksum(a, idx) == Checksum(b, idx) {
      assert pre + ha + [ESC, '\\'] == pre + hb + [ESC, '\\'];
      SameSuffixRest(pre + ha, pre + hb, [ESC, '\\']);
      SamePrefixRest(pre, ha, hb);
      Hex04Injective(0x10000 - a as int, 0x10000 - b as int);
    }
  }

  /** A move other than 'L' and 'R' is the same as no move. */
  lemma ModifyBandOtherMove(line: nat, sym: char, mov: char)
    requires mov != 'L' && mov != 'R'
    ensures ModifyBand(line, sym, mov) == ModifyBand(line, sym, 'N')
  {
  }

  /** 'L' and 'R' append a track shift to the plain write. */
  lemma ModifyBandShifts(line: nat, sym: char)
    ensures ModifyBand(line, sym, 'L') == ModifyBand(line, sym, 'N') + MovLeft(line)
    ensures ModifyBand(line, sym, 'R') == ModifyBand(line, sym, 'N') + MovRight(line)
  {
  }

  /** The init program: erase the screen, fill both tracks with 120 blanks,
      show the prompt on line 3, and leave the cursor under track 1's head. */
  lemma InitFileLayout(prompt: string)
    ensures InitFile(prompt) == "\U{1B}[2J" + "\U{1B}[1;1H" + Repeat('#', 120)
                                + "\U{1B}[2;1H" + Repeat('#', 120)
                                + "\U{1B}[3;1H" + prompt + "\U{1B}[1;60H"
  {
    EraseAndCursorSequences();
    SmallDecimals();
  }

  /** modify_band on track 1, character for character, for every symbol and move. */
  lemma ModifyBandTrack1Bytes(sym: char, mov: char)
    ensures ModifyBand(1, sym, mov) == "\U{1B}[1;60H" + [sym] + "\U{1B}[3;1H"
              + if mov == 'L' then "\U{1B}[1;1;1;119;1;1;2;1$v\U{1B}[1;1H#"
                else if mov == 'R' then "\U{1B}[1;2;1;120;1;1;1;1$v\U{1B}[1;120H#"
                else ""
  {
    EraseAndCursorSequences();
    ShiftLeftTrack1();
    ShiftRightTrack1();
  }

  /** modify_band on track 2, character for character, for every symbol and move. */
  lemma ModifyBandTrack2Bytes(sym: char, mov: char)
    ensures ModifyBand(2, sym, mov) == "\U{1B}[2;60H" + [sym] + "\U{1B}[3;1H"
              + if mov == 'L' then "\U{1B}[2;1;2;119;1;2;2;1$v\U{1B}[2;1H#"
                else if mov == 'R' then "\U{1B}[2;2;2;120;1;2;1;1$v\U{1B}[2;120H#"
                else ""
  {
    EraseAndCursorSequences();
    ShiftLeftTrack2();
    ShiftRightTrack2();
  }

  /** The postinit program, sequence by sequence: cursor under track 1's
      head on line 3, erase that line, the head mark, cursor home, and the
      two checksum requests. */
  lemma PostInitFileBytes()
    ensures PostInitFile()
         == "\U{1B}[3;60H" + "\U{1B}[2K" + "^" + "\U{1B}[3;1H"
            + "\U{1B}[1;1;1;60;1;60*y" + "\U{1B}[2;1;2;60;2;60*y"
  {
    EraseAndCursorSequences();
    ChecksumRequestSequences();
  }

  /** The step program of any action with changes ('#','N'), ('#','N')
      whose next state is not final, sequence by sequence: a blank under
      each head, no move, cursor home, and the two checksum requests. */
  lemma DefaultTapewriterBytes()
    ensures CreateTapewriter('#', 'N', '#', 'N')
         == "\U{1B}[1;60H" + "#" + "\U{1B}[3;1H" + "\U{1B}[2;60H" + "#" + "\U{1B}[3;1H"
            + "\U{1B}[3;1H" + ("\U{1B}[1;1;1;60;1;60*y" + "\U{1B}[2;1;2;60;2;60*y")
  {
    EraseAndCursorSequences();
    ChecksumRequestSequences();
  }

  /** Cursor home, then the checksum requests for track 1 and track 2. */
  function ChecksumRequests(): string {
    MovCursor(3, 1) + GetChecksum(1) + GetChecksum(2)
  }

  /** A step program ends exactly like the postinit file: with cursor home
      and the requests that make the terminal report the two symbols under
      the heads. */
  lemma TapewriterRequestsChecksums(sym1: char, mov1: char, sym2: char, mov2: char)
    ensures ChecksumRequests() == "\U{1B}[3;1H\U{1B}[1;1;1;60;1;60*y\U{1B}[2;1;2;60;2;60*y"
    ensures CreateTapewriter(sym1, mov1, sym2, mov2)
         == ModifyBand(1, sym1, mov1) + ModifyBand(2, sym2, mov2) + ChecksumRequests()
    ensures PostInitFile() == MovCursor(3, WIDTH / 2) + ClearLine() + "^" + ChecksumRequests()
  {
    EraseAndCursorSequences();
    ChecksumRequestSequences();
    var band := ModifyBand(1, sym1, mov1) + ModifyBand(2, sym2, mov2);
    Associative(band + MovCursor(3, 1), GetChecksum(1), GetChecksum(2));
    Associative(band, MovCursor(3, 1), GetChecksum(1));
    Associative(band, MovCursor(3, 1) + GetChecksum(1), GetChecksum(2));
    var mark := MovCursor(3, WIDTH / 2) + ClearLine() + "^";
    Associative(mark, MovCursor(3, 1), GetChecksum(1));
    Associative(mark, MovCursor(3, 1) + GetChecksum(1), GetChecksum(2));
  }

  lemma Associative(a: string, b: string, c: string)
    ensures a + (b + c) == (a + b) + c
  {
  }

  /** The halt program shows the message, left-aligned and space-padded to at
      least 30 characters, and then the close hint on the next line. */
  lemma SendMessageLayout(msg: string)
    ensures var pad := if |msg| < 30 then 30 - |msg| else 0;
            SendMessage(msg) == MovCursor(3, 1) + msg + Repeat(' ', pad)
                                + MovCursor(4, 1) + "Press ^C to close" + MovCursor(5, 1)
  {
    var pad := if |msg| < 30 then 30 - |msg| else 0;
    var p := PadRight(msg, 30, ' ');
    assert p == msg + Repeat(' ', pad) by {
      assert p[..|msg|] == msg;
      assert p[|msg|..] == Repeat(' ', pad);
      assert p == p[..|msg|] + p[|msg|..];
    }
  }
}
