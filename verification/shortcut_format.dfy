/** `formatCodes` of the shortcut menu: the human-readable rendering of the
    serialized key bindings of one command. */
module ShortcutFormat {
  import opened Wrappers
  import opened JsStrings

  /** 2^53: every integer below it converts to a double without rounding.
      The model converts only numerals below it (see `NumeralUnit`). */
  const EXACT_LIMIT: int := 0x20_0000_0000_0000

  /** The lookup in `specialCodes`, restricted to its seven own keys. */
  function SpecialName(token: string): (r: Option<string>)
    ensures r.Some? <==> token in {"27", "46", "8", "Control", "Meta", "Shift", "Alt"}
    ensures r.Some? ==> |r.value| > 0
    // the modifier keys other than Control are shown under their own names
    ensures r == Some(token) <==> token in {"Meta", "Shift", "Alt"}
  {
    if token == "27" then Some("Escape")
    else if token == "46" then Some(".")
    else if token == "8" then Some("Backspace")
    else if token == "Control" then Some("Ctrl")
    else if token == "Meta" then Some("Meta")
    else if token == "Shift" then Some("Shift")
    else if token == "Alt" then Some("Alt")
    else None
  }

  /** `code >= '!' && code <= '~'`, as JavaScript compares strings. */
  predicate InPrintableRange(token: string) {
    AtLeast(token, "!") && AtMost(token, "~")
  }

  /** The string comparison looks at the first code unit only, except that
      a token starting with `~` is in range only when it is exactly `~`. */
  lemma PrintableRangeByFirstUnit(token: string)
    ensures InPrintableRange(token) <==>
              |token| > 0 && '!' <= token[0] && (token[0] < '~' || token == "~")
  {
    assert "!"[1..] == "" && "~"[1..] == "";
    assert Less(token, "!") <==> |token| == 0 || token[0] < '!';
    assert Less("~", token) <==> |token| > 0 && ('~' < token[0] || (token[0] == '~' && |token| > 1));
    assert |token| == 1 && token[0] == '~' <==> token == "~";
  }

  /** Every code unit is a decimal digit. */
  predicate AllDigits(s: string)
    decreases |s|
  {
    |s| == 0 || (IsDigit(s[|s| - 1]) && AllDigits(s[..|s| - 1]))
  }

  /** A digit string has a digit in every position, the first included. */
  lemma {:induction false} AllDigitsAt(s: string, i: int)
    requires AllDigits(s) && 0 <= i < |s|
    ensures IsDigit(s[i])
    decreases |s|
  {
    if i < |s| - 1 {
      AllDigitsAt(s[..|s| - 1], i);
    }
  }

  /** `AllDigits` says what its name says: a digit in every position. */
  lemma {:induction false} AllDigitsEverywhere(s: string)
    ensures AllDigits(s) <==> forall i :: 0 <= i < |s| ==> IsDigit(s[i])
    decreases |s|
  {
    if |s| > 0 {
      AllDigitsEverywhere(s[..|s| - 1]);
      if forall i :: 0 <= i < |s| ==> IsDigit(s[i]) {
        assert forall i :: 0 <= i < |s| - 1 ==> s[..|s| - 1][i] == s[i];
      }
    }
  }


  /** The value of a string of decimal digits, the last digit counting one. */
  function DecimalValue(s: string): nat
    requires AllDigits(s)
    decreases |s|
  {
    if |s| == 0 then 0
    else 10 * DecimalValue(s[..|s| - 1]) + DigitValue(s[|s| - 1])
  }

  /** The numeral read from the front, as `Number` scans it: each digit
      multiplies what was read so far by ten and adds itself. */
  function ReadDigits(acc: int, s: string): int
    decreases |s|
  {
    if |s| == 0 then acc else ReadDigits(10 * acc + DigitValue(s[0]), s[1..])
  }

  /** Reading one more digit at the end multiplies by ten and adds it. */
  lemma {:induction false} ReadDigitsSnoc(acc: int, s: string, c: char)
    ensures ReadDigits(acc, s + [c]) == 10 * ReadDigits(acc, s) + DigitValue(c)
    decreases |s|
  {
    if |s| > 0 {
      assert (s + [c])[0] == s[0] && (s + [c])[1..] == s[1..] + [c];
      ReadDigitsSnoc(10 * acc + DigitValue(s[0]), s[1..], c);
    } else {
      assert (s + [c])[1..] == [];
    }
  }

  /** Both readings of a digit string give the same number. */
  lemma {:induction false} DecimalValueReadsFromFront(s: string)
    requires AllDigits(s)
    ensures DecimalValue(s) == ReadDigits(0, s)
    decreases |s|
  {
    if |s| > 0 {
      var init := s[..|s| - 1];
      DecimalValueReadsFromFront(init);
      assert init + [s[|s| - 1]] == s;
      ReadDigitsSnoc(0, init, s[|s| - 1]);
    }
  }

  /** The UTF-16 code unit `String.fromCharCode(Number(token))` produces for
      a numeral whose value converts exactly, when that unit is not a lone
      surrogate (which a `char` cannot hold). */
  function NumeralUnit(token: string): (r: Option<char>)
    ensures r.Some? ==> |token| > 0 && IsDigit(token[0])
    ensures r.Some? <==>
              |token| > 0 && AllDigits(token) && DecimalValue(token) < EXACT_LIMIT &&
              !(0xD800 <= DecimalValue(token) % 0x1_0000 < 0xE000)
    ensures r.Some? ==> AllDigits(token) && r.value as int == DecimalValue(token) % 0x1_0000
  {
    if |token| > 0 && AllDigits(token) && DecimalValue(token) < EXACT_LIMIT
    then
      AllDigitsAt(token, 0);
      var unit := DecimalValue(token) % 0x1_0000;
      if unit < 0xD800 || 0xE000 <= unit then Some(unit as char) else None
    else None
  }

  /** A numeral of any length, read digit by digit from the front, stands
      for the code unit of its value modulo 2^16, unless it is too large to
      convert exactly or lands on a surrogate. */
  lemma NumeralUnitFromFront(token: string)
    ensures NumeralUnit(token).Some? <==>
              |token| > 0 && (forall i :: 0 <= i < |token| ==> IsDigit(token[i])) &&
              ReadDigits(0, token) < EXACT_LIMIT &&
              !(0xD800 <= ReadDigits(0, token) % 0x1_0000 < 0xE000)
    ensures NumeralUnit(token).Some? ==>
              NumeralUnit(token).value as int == ReadDigits(0, token) % 0x1_0000
  {
    AllDigitsEverywhere(token);
    if AllDigits(token) {
      DecimalValueReadsFromFront(token);
    }
  }

  /** The numerals of the examples below: `27` is ESC, `67` is `C` and `17`
      is the control character U+0011. */
  lemma SmallNumerals()
    ensures NumeralUnit("27") == Some(27 as char)
    ensures NumeralUnit("67") == Some('C')
    ensures NumeralUnit("17") == Some(17 as char)
  {
    TwoDigitNumeral("27");
    TwoDigitNumeral("67");
    TwoDigitNumeral("17");
  }

  /** A two-digit numeral, as a case of `NumeralUnitFromFront`. */
  lemma TwoDigitNumeral(token: string)
    requires |token| == 2 && IsDigit(token[0]) && IsDigit(token[1])
    ensures NumeralUnit(token) == Some((10 * DigitValue(token[0]) + DigitValue(token[1])) as char)
  {
    NumeralUnitFromFront(token);
    var first := DigitValue(token[0]);
    assert ReadDigits(0, token) == ReadDigits(first, token[1..]);
    assert token[1..][0] == token[1] && token[1..][1..] == [];
    assert ReadDigits(first, token[1..]) == 10 * first + DigitValue(token[1]);
  }

  /** One key token, rendered. `other` is how the host renders a token in the
      printable range that is neither a key of the table nor a numeral with
      a representable code unit (JavaScript's `in` operator and `Number`
      conversion decide those). */
  function FormatToken(token: string, other: string -> string): (r: string)
    ensures SpecialName(token).Some? ==> r == SpecialName(token).value
    ensures SpecialName(token).None? && NumeralUnit(token).Some? ==> r == [NumeralUnit(token).value]
    ensures SpecialName(token).None? &&
            (|token| == 0 || token[0] < '!' || '~' < token[0] || (token[0] == '~' && |token| > 1))
            ==> r == token
  {
    PrintableRangeByFirstUnit(token);
    match SpecialName(token)
    case Some(name) => name
    case None =>
      if InPrintableRange(token) then
        match NumeralUnit(token)
        case Some(c) => [c]
        case None => other(token)
      else token
  }

  /** `<code>…</code>` around a rendered token. */
  function Wrap(text: string): (r: string)
    ensures |r| == |text| + 13
    ensures r[..6] == "<code>" && r[|r| - 7..] == "</code>"
    ensures r[6..|r| - 7] == text
  {
    "<code>" + text + "</code>"
  }

  /** The renderer applied to each token of a chord. */
  function TokenRenderer(other: string -> string): string -> string {
    token => Wrap(FormatToken(token, other))
  }

  /** One chord such as `Control+67`: its `+`-separated tokens, each
      rendered and wrapped, joined by ` + `. */
  function FormatChord(chord: string, other: string -> string): (r: string)
    ensures '+' !in chord ==> r == Wrap(FormatToken(chord, other))
  {
    SplitWithoutSeparator(chord, '+');
    Join(Map(TokenRenderer(other), Split(chord, '+')), " + ")
  }

  /** The renderer applied to each binding of a command. */
  function ChordRenderer(other: string -> string): string -> string {
    chord => FormatChord(chord, other)
  }

  /** `formatCodes`: the rendered chords of one command joined by ` , `. */
  function FormatCodes(keyCodes: seq<string>, other: string -> string): (r: string)
    ensures |keyCodes| == 0 ==> r == ""
    ensures |keyCodes| == 1 ==> r == FormatChord(keyCodes[0], other)
  {
    Join(Map(ChordRenderer(other), keyCodes), " , ")
  }

  /** Bindings render one segment each, neighbouring segments separated by
      ` , `. */
  lemma FormatCodesConcat(a: seq<string>, b: seq<string>, other: string -> string)
    requires |a| >= 1 && |b| >= 1
    ensures FormatCodes(a + b, other) == FormatCodes(a, other) + " , " + FormatCodes(b, other)
  {
    MapConcat(ChordRenderer(other), a, b);
    JoinConcat(Map(ChordRenderer(other), a), Map(ChordRenderer(other), b), " , ");
  }

  /** Within a chord, the tokens on either side of a `+` render
      independently, separated by ` + `. */
  lemma FormatChordConcat(x: string, y: string, other: string -> string)
    ensures FormatChord(x + "+" + y, other) == FormatChord(x, other) + " + " + FormatChord(y, other)
  {
    SplitConcat(x, y, '+');
    var sx, sy := Split(x, '+'), Split(y, '+');
    MapConcat(TokenRenderer(other), sx, sy);
    JoinConcat(Map(TokenRenderer(other), sx), Map(TokenRenderer(other), sy), " + ");
  }

  /** The table wins over the printable-range conversion: `27` is a printable
      numeral, yet it renders as `Escape` and not as the character 27. */
  lemma SpecialTakesPrecedence(other: string -> string)
    ensures InPrintableRange("27") && NumeralUnit("27") == Some(27 as char)
    ensures FormatToken("27", other) == "Escape"
    ensures FormatToken("8", other) == "Backspace"
    ensures FormatToken("46", other) == "."
    ensures FormatToken("Control", other) == "Ctrl"
    ensures FormatToken("Meta", other) == "Meta"
    ensures FormatToken("Shift", other) == "Shift"
    ensures FormatToken("Alt", other) == "Alt"
  {
    PrintableRangeByFirstUnit("27");
    SmallNumerals();
  }

  /** Other numerals are character codes: `67` is `C`, and `17` is the control
      character U+0011, not the digit `1`. Empty tokens, tokens starting
      below `!` and tokens starting with `~` but longer stay as they are. */
  lemma NumeralsAreCharacterCodes(other: string -> string)
    ensures FormatToken("67", other) == "C"
    ensures FormatToken("17", other) == [17 as char]
    ensures FormatToken("17", other) != "1"
    ensures FormatToken("", other) == ""
    ensures FormatToken(" A", other) == " A"
    ensures FormatToken("~~", other) == "~~"
  {
    PrintableRangeByFirstUnit("67");
    PrintableRangeByFirstUnit("17");
    SmallNumerals();
  }

  /** A chord of two plain tokens renders as the two wrapped tokens. */
  lemma FormatTwoTokenChord(x: string, y: string, other: string -> string)
    requires '+' !in x && '+' !in y
    ensures FormatChord(x + "+" + y, other)
            == Wrap(FormatToken(x, other)) + " + " + Wrap(FormatToken(y, other))
  {
    FormatChordConcat(x, y, other);
  }

  /** The chord `Control+67` renders as Ctrl plus C. */
  lemma CtrlCChord(other: string -> string)
    ensures FormatChord("Control" + "+" + "67", other) == Wrap("Ctrl") + " + " + Wrap("C")
  {
    assert '+' !in "Control" && '+' !in "67";
    FormatTwoTokenChord("Control", "67", other);
    SpecialTakesPrecedence(other);
    NumeralsAreCharacterCodes(other);
  }

  /** The chord `27` renders as Escape. */
  lemma EscapeChord(other: string -> string)
    ensures FormatChord("27", other) == Wrap("Escape")
  {
    assert '+' !in "27";
    SpecialTakesPrecedence(other);
  }

  /** Two bindings render as their chords around one ` , `. */
  lemma FormatCodesPair(a: string, b: string, other: string -> string)
    ensures FormatCodes([a, b], other) == FormatChord(a, other) + " , " + FormatChord(b, other)
  {
    assert [a, b] == [a] + [b];
    FormatCodesConcat([a], [b], other);
  }

  /** The bindings `Control+67` and `27` of one command, end to end. */
  lemma CtrlCOrEscape(other: string -> string)
    ensures FormatCodes(["Control" + "+" + "67", "27"], other)
            == Wrap("Ctrl") + " + " + Wrap("C") + " , " + Wrap("Escape")
  {
    FormatCodesPair("Control" + "+" + "67", "27", other);
    CtrlCChord(other);
    EscapeChord(other);
  }
}
