/**
 * The choice of colour for a record's heading (logger/src/sub_func.rs, `ansi_to_colored`).
 * The escape rendering done by the `colored` crate is not modelled: the result is the
 * abstract colour paired with the text it applies to.
 */
module Ansi {

  /** The sixteen foreground colours the lookup can choose. */
  datatype Color =
    | Black | Red | Green | Yellow | Blue | Magenta | Cyan | White
    | BrightBlack | BrightRed | BrightGreen | BrightYellow
    | BrightBlue | BrightMagenta | BrightCyan | BrightWhite

  /** A text together with the colour it is to be shown in. */
  datatype Colored = Colored(color: Color, text: string)

  /**
   * The spelling a source literal `"\033[NNm"` denotes. Rust has no octal escapes:
   * `\0` is the NUL character and `33` are two ordinary digits, so the string is NUL, `33[`,
   * the colour's two-digit SGR code (30-37 standard, 90-97 bright) and `m`.
   */
  function NulSpelling(c: Color): string
  {
    match c
    case Black => "\U{0}33[30m"
    case Red => "\U{0}33[31m"
    case Green => "\U{0}33[32m"
    case Yellow => "\U{0}33[33m"
    case Blue => "\U{0}33[34m"
    case Magenta => "\U{0}33[35m"
    case Cyan => "\U{0}33[36m"
    case White => "\U{0}33[37m"
    case BrightBlack => "\U{0}33[90m"
    case BrightRed => "\U{0}33[91m"
    case BrightGreen => "\U{0}33[92m"
    case BrightYellow => "\U{0}33[93m"
    case BrightBlue => "\U{0}33[94m"
    case BrightMagenta => "\U{0}33[95m"
    case BrightCyan => "\U{0}33[96m"
    case BrightWhite => "\U{0}33[97m"
  }

  /** The spelling `"\x1b[NNm"`: the ESC character, `[`, the SGR code and `m`. */
  function EscSpelling(c: Color): string
  {
    match c
    case Black => "\U{1B}[30m"
    case Red => "\U{1B}[31m"
    case Green => "\U{1B}[32m"
    case Yellow => "\U{1B}[33m"
    case Blue => "\U{1B}[34m"
    case Magenta => "\U{1B}[35m"
    case Cyan => "\U{1B}[36m"
    case White => "\U{1B}[37m"
    case BrightBlack => "\U{1B}[90m"
    case BrightRed => "\U{1B}[91m"
    case BrightGreen => "\U{1B}[92m"
    case BrightYellow => "\U{1B}[93m"
    case BrightBlue => "\U{1B}[94m"
    case BrightMagenta => "\U{1B}[95m"
    case BrightCyan => "\U{1B}[96m"
    case BrightWhite => "\U{1B}[97m"
  }

  /** The strings the lookup recognises as naming colour `c`. */
  predicate Spells(ansi: string, c: Color)
  {
    ansi == NulSpelling(c) || ansi == EscSpelling(c)
  }

  /** The colour a heading is shown in, looked up from the record's colour string. */
  function AnsiToColored(ansi: string, text: string): Colored
  {
    match ansi
    case "\U{0}33[30m" | "\U{1B}[30m" => Colored(Black, text)
    case "\U{0}33[31m" | "\U{1B}[31m" => Colored(Red, text)
    case "\U{0}33[32m" | "\U{1B}[32m" => Colored(Green, text)
    case "\U{0}33[33m" | "\U{1B}[33m" => Colored(Yellow, text)
    case "\U{0}33[34m" | "\U{1B}[34m" => Colored(Blue, text)
    case "\U{0}33[35m" | "\U{1B}[35m" => Colored(Magenta, text)
    case "\U{0}33[36m" | "\U{1B}[36m" => Colored(Cyan, text)
    case "\U{0}33[37m" | "\U{1B}[37m" => Colored(White, text)
    case "\U{0}33[90m" | "\U{1B}[90m" => Colored(BrightBlack, text)
    case "\U{0}33[91m" | "\U{1B}[91m" => Colored(BrightRed, text)
    case "\U{0}33[92m" | "\U{1B}[92m" => Colored(BrightGreen, text)
    case "\U{0}33[93m" | "\U{1B}[93m" => Colored(BrightYellow, text)
    case "\U{0}33[94m" | "\U{1B}[94m" => Colored(BrightBlue, text)
    case "\U{0}33[95m" | "\U{1B}[95m" => Colored(BrightMagenta, text)
    case "\U{0}33[96m" | "\U{1B}[96m" => Colored(BrightCyan, text)
    case "\U{0}33[97m" | "\U{1B}[97m" => Colored(BrightWhite, text)
    case _ => Colored(White, text)
  }

  /**
   * The `"\033[NNm"` spelling of every code selects that code's colour, and the text is kept.
   * Naming the two code digits lets the solver tell the spelling apart from the literals
   * the lookup tries before it.
   */
  lemma NulSpellingSelects(c: Color, text: string)
    ensures AnsiToColored(NulSpelling(c), text) == Colored(c, text)
  {
    match c
    case Black => assert NulSpelling(Black)[4] == '3' && NulSpelling(Black)[5] == '0';
    case Red => assert NulSpelling(Red)[4] == '3' && NulSpelling(Red)[5] == '1';
    case Green => assert NulSpelling(Green)[4] == '3' && NulSpelling(Green)[5] == '2';
    case Yellow => assert NulSpelling(Yellow)[4] == '3' && NulSpelling(Yellow)[5] == '3';
    case Blue => assert NulSpelling(Blue)[4] == '3' && NulSpelling(Blue)[5] == '4';
    case Magenta => assert NulSpelling(Magenta)[4] == '3' && NulSpelling(Magenta)[5] == '5';
    case Cyan => assert NulSpelling(Cyan)[4] == '3' && NulSpelling(Cyan)[5] == '6';
    case White => assert NulSpelling(White)[4] == '3' && NulSpelling(White)[5] == '7';
    case BrightBlack => assert NulSpelling(BrightBlack)[4] == '9' && NulSpelling(BrightBlack)[5] == '0';
    case BrightRed => assert NulSpelling(BrightRed)[4] == '9' && NulSpelling(BrightRed)[5] == '1';
    case BrightGreen => assert NulSpelling(BrightGreen)[4] == '9' && NulSpelling(BrightGreen)[5] == '2';
    case BrightYellow => assert NulSpelling(BrightYellow)[4] == '9' && NulSpelling(BrightYellow)[5] == '3';
    case BrightBlue => assert NulSpelling(BrightBlue)[4] == '9' && NulSpelling(BrightBlue)[5] == '4';
    case BrightMagenta => assert NulSpelling(BrightMagenta)[4] == '9' && NulSpelling(BrightMagenta)[5] == '5';
    case BrightCyan => assert NulSpelling(BrightCyan)[4] == '9' && NulSpelling(BrightCyan)[5] == '6';
    case BrightWhite => assert NulSpelling(BrightWhite)[4] == '9' && NulSpelling(BrightWhite)[5] == '7';
  }

  /** The `"\x1b[NNm"` spelling of every code selects that code's colour, and the text is kept. */
  lemma EscSpellingSelects(c: Color, text: string)
    ensures AnsiToColored(EscSpelling(c), text) == Colored(c, text)
  {
    match c
    case Black => assert EscSpelling(Black)[2] == '3' && EscSpelling(Black)[3] == '0';
    case Red => assert EscSpelling(Red)[2] == '3' && EscSpelling(Red)[3] == '1';
    case Green => assert EscSpelling(Green)[2] == '3' && EscSpelling(Green)[3] == '2';
    case Yellow => assert EscSpelling(Yellow)[2] == '3' && EscSpelling(Yellow)[3] == '3';
    case Blue => assert EscSpelling(Blue)[2] == '3' && EscSpelling(Blue)[3] == '4';
    case Magenta => assert EscSpelling(Magenta)[2] == '3' && EscSpelling(Magenta)[3] == '5';
    case Cyan => assert EscSpelling(Cyan)[2] == '3' && EscSpelling(Cyan)[3] == '6';
    case White => assert EscSpelling(White)[2] == '3' && EscSpelling(White)[3] == '7';
    case BrightBlack => assert EscSpelling(BrightBlack)[2] == '9' && EscSpelling(BrightBlack)[3] == '0';
    case BrightRed => assert EscSpelling(BrightRed)[2] == '9' && EscSpelling(BrightRed)[3] == '1';
    case BrightGreen => assert EscSpelling(BrightGreen)[2] == '9' && EscSpelling(BrightGreen)[3] == '2';
    case BrightYellow => assert EscSpelling(BrightYellow)[2] == '9' && EscSpelling(BrightYellow)[3] == '3';
    case BrightBlue => assert EscSpelling(BrightBlue)[2] == '9' && EscSpelling(BrightBlue)[3] == '4';
    case BrightMagenta => assert EscSpelling(BrightMagenta)[2] == '9' && EscSpelling(BrightMagenta)[3] == '5';
    case BrightCyan => assert EscSpelling(BrightCyan)[2] == '9' && EscSpelling(BrightCyan)[3] == '6';
    case BrightWhite => assert EscSpelling(BrightWhite)[2] == '9' && EscSpelling(BrightWhite)[3] == '7';
  }

  /** The fall-through arm of the lookup: a string equal to none of its literals gives white. */
  lemma FallThroughIsWhite(ansi: string, text: string)
    requires ansi != "\U{0}33[30m" && ansi != "\U{1B}[30m"
    requires ansi != "\U{0}33[31m" && ansi != "\U{1B}[31m"
    requires ansi != "\U{0}33[32m" && ansi != "\U{1B}[32m"
    requires ansi != "\U{0}33[33m" && ansi != "\U{1B}[33m"
    requires ansi != "\U{0}33[34m" && ansi != "\U{1B}[34m"
    requires ansi != "\U{0}33[35m" && ansi != "\U{1B}[35m"
    requires ansi != "\U{0}33[36m" && ansi != "\U{1B}[36m"
    requires ansi != "\U{0}33[37m" && ansi != "\U{1B}[37m"
    requires ansi != "\U{0}33[90m" && ansi != "\U{1B}[90m"
    requires ansi != "\U{0}33[91m" && ansi != "\U{1B}[91m"
    requires ansi != "\U{0}33[92m" && ansi != "\U{1B}[92m"
    requires ansi != "\U{0}33[93m" && ansi != "\U{1B}[93m"
    requires ansi != "\U{0}33[94m" && ansi != "\U{1B}[94m"
    requires ansi != "\U{0}33[95m" && ansi != "\U{1B}[95m"
    requires ansi != "\U{0}33[96m" && ansi != "\U{1B}[96m"
    requires ansi != "\U{0}33[97m" && ansi != "\U{1B}[97m"
    ensures AnsiToColored(ansi, text) == Colored(White, text)
  {
  }

  /** A string that spells no colour falls back to white. */
  lemma UnknownIsWhite(ansi: string, text: string)
    requires forall c: Color :: !Spells(ansi, c)
    ensures AnsiToColored(ansi, text) == Colored(White, text)
  {
    assert !Spells(ansi, Black);
    assert !Spells(ansi, Red);
    assert !Spells(ansi, Green);
    assert !Spells(ansi, Yellow);
    assert !Spells(ansi, Blue);
    assert !Spells(ansi, Magenta);
    assert !Spells(ansi, Cyan);
    assert !Spells(ansi, White);
    assert !Spells(ansi, BrightBlack);
    assert !Spells(ansi, BrightRed);
    assert !Spells(ansi, BrightGreen);
    assert !Spells(ansi, BrightYellow);
    assert !Spells(ansi, BrightBlue);
    assert !Spells(ansi, BrightMagenta);
    assert !Spells(ansi, BrightCyan);
    assert !Spells(ansi, BrightWhite);
    FallThroughIsWhite(ansi, text);
  }

  /**
   * The lookup is total and characterised exactly: the text passes through unchanged and
   * the colour is `c` if and only if `ansi` spells `c`, or `c` is white and `ansi` spells nothing.
   */
  lemma LookupCharacterised(ansi: string, text: string, c: Color)
    ensures AnsiToColored(ansi, text).text == text
    ensures AnsiToColored(ansi, text).color == c <==>
              Spells(ansi, c) || (c == White && forall d: Color :: !Spells(ansi, d))
  {
    NulSpellingSelects(c, text);
    EscSpellingSelects(c, text);
    if d: Color :| Spells(ansi, d) {
      NulSpellingSelects(d, text);
      EscSpellingSelects(d, text);
    } else {
      UnknownIsWhite(ansi, text);
    }
  }
}
