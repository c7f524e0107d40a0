/** Printing a 128-bit number on a formatted output stream. */
module Uint128Print {
  import opened Basics
  import opened Uint128

  // ---- Formatted output

  datatype Base = Oct | Dec | Hex
  datatype Adjust = Left | Right | Internal
  datatype Format = Format(base: Base, width: nat, fill: char, adjust: Adjust, showBase: bool, upperCase: bool)

  const DEFAULT_FORMAT := Format(Dec, 0, ' ', Right, false, false)

  function Radix(base: Base): nat {
    match base
    case Oct => 8
    case Dec => 10
    case Hex => 16
  }

  function Digit(d: nat, upperCase: bool): char
    requires d < 16
  {
    (if upperCase then "0123456789ABCDEF" else "0123456789abcdef")[d]
  }

  /** The shortest numeral of `n` in the given radix. */
  function Numeral(n: nat, radix: nat, upperCase: bool): (s: string)
    requires 2 <= radix <= 16
    ensures |s| >= 1
  {
    if n < radix then [Digit(n, upperCase)]
    else Numeral(n / radix, radix, upperCase) + [Digit(n % radix, upperCase)]
  }

  function Repeated(c: char, times: nat): (s: string)
    ensures |s| == times
    ensures forall i :: 0 <= i < times ==> s[i] == c
  {
    if times == 0 then "" else Repeated(c, times - 1) + [c]
  }

  /** A field is filled up to the width: after it, before it, or between its prefix and its body. */
  function Padded(fmt: Format, prefix: string, body: string): string {
    if |prefix + body| >= fmt.width then prefix + body
    else
      var filler := Repeated(fmt.fill, fmt.width - |prefix + body|);
      match fmt.adjust
      case Left => prefix + body + filler
      case Right => filler + prefix + body
      case Internal => prefix + filler + body
  }

  function BasePrefix(fmt: Format, n: nat): string {
    if !fmt.showBase || n == 0 then "" else
    match fmt.base
    case Oct => "0"
    case Dec => ""
    case Hex => if fmt.upperCase then "0X" else "0x"
  }

  /** How a number is inserted under a format. */
  function Field(fmt: Format, n: nat): string {
    Padded(fmt, BasePrefix(fmt, n), Numeral(n, Radix(fmt.base), fmt.upperCase))
  }

  /** A field is exactly as wide as it must be: its text when that fills the width, and otherwise as wide as the
      width, with the text at the side it is adjusted to and fill characters everywhere else. */
  lemma {:induction false} PaddedFills(fmt: Format, prefix: string, body: string)
    ensures var r, n := Padded(fmt, prefix, body), |prefix| + |body|;
            && |r| == (if n < fmt.width then fmt.width else n)
            && (fmt.adjust.Left? ==> r[..n] == prefix + body && forall i :: n <= i < |r| ==> r[i] == fmt.fill)
            && (fmt.adjust.Right? ==>
                  r[|r| - n..] == prefix + body && forall i :: 0 <= i < |r| - n ==> r[i] == fmt.fill)
            && (fmt.adjust.Internal? ==>
                  && r[..|prefix|] == prefix && r[|r| - |body|..] == body
                  && forall i :: |prefix| <= i < |r| - |body| ==> r[i] == fmt.fill)
  {
    var n := |prefix| + |body|;
    if n < fmt.width {
      var filler := Repeated(fmt.fill, fmt.width - n);
      match fmt.adjust
      case Left => assert (prefix + body + filler)[..n] == prefix + body;
      case Right => assert (filler + prefix + body)[|filler|..] == prefix + body;
      case Internal => assert (prefix + filler + body)[|prefix| + |filler|..] == body;
    }
  }

  class OStream {
    var text: string
    var fmt: Format

    constructor ()
      ensures text == "" && fmt == DEFAULT_FORMAT
    {
      text, fmt := "", DEFAULT_FORMAT;
    }

    /** Every formatted insertion uses the width once and resets it. */
    method InsertText(s: string)
      modifies this
      ensures text == old(text) + Padded(old(fmt), "", s)
      ensures fmt == old(fmt).(width := 0)
    {
      text := text + Padded(fmt, "", s);
      fmt := fmt.(width := 0);
    }

    method InsertNumber(n: uint64)
      modifies this
      ensures text == old(text) + Field(old(fmt), n)
      ensures fmt == old(fmt).(width := 0)
    {
      text := text + Field(fmt, n);
      fmt := fmt.(width := 0);
    }
  }

  // ---- Printing

  /** What is printed under a format: only the first field sees the caller's width. */
  function Printed(fmt: Format, high: uint64, low: uint64): string {
    var f := fmt.(width := 0, base := Hex);
    Padded(fmt, "", "0x")
    + if high == 0 then Field(f, low) else Field(f, high) + Field(f.(width := 16, fill := '0'), low)
  }

  /** The stream's format comes back as it was, its width included. */
  method Print(out: OStream, n: Uint128)
    modifies out
    ensures out.text == old(out.text) + Printed(old(out.fmt), n.high, n.low)
    ensures out.fmt == old(out.fmt)
  {
    var saved := out.fmt;
    ghost var text, prefix := out.text, Padded(saved, "", "0x");
    out.InsertText("0x");
    out.fmt := out.fmt.(base := Hex);
    if n.high == 0 {
      out.InsertNumber(n.low);
      ConcatAssociative(text, prefix, Field(saved.(width := 0, base := Hex), n.low));
    } else {
      ghost var f := out.fmt;
      out.InsertNumber(n.high);
      out.fmt := out.fmt.(width := 16);
      out.fmt := out.fmt.(fill := '0');
      ghost var g := out.fmt;
      out.InsertNumber(n.low);
      ConcatAssociative(text + prefix, Field(f, n.high), Field(g, n.low));
      ConcatAssociative(text, prefix, Field(f, n.high) + Field(g, n.low));
    }
    out.fmt := saved;
  }

  // ---- Meaning of the output

  /** The shortest hexadecimal numeral, with its prefix. */
  function Canonical(n: nat): string {
    "0x" + Numeral(n, 16, false)
  }

  function HexValue(c: char): nat {
    if '0' <= c <= '9' then c as nat - '0' as nat
    else if 'a' <= c <= 'f' then c as nat - 'a' as nat + 10
    else if 'A' <= c <= 'F' then c as nat - 'A' as nat + 10
    else 0
  }

  function Parse(s: string): nat {
    if s == "" then 0 else Parse(s[..|s| - 1]) * 16 + HexValue(s[|s| - 1])
  }

  function Pow16(k: nat): (p: nat)
    ensures p >= 1
  {
    if k == 0 then 1 else 16 * Pow16(k - 1)
  }

  /** The last `k` hexadecimal digits of `n`. */
  function LastDigits(n: nat, k: nat): (s: string)
    ensures |s| == k
  {
    if k == 0 then "" else LastDigits(n / 16, k - 1) + [Digit(n % 16, false)]
  }

  lemma {:induction false} NumeralSnoc(m: nat, d: nat)
    requires m > 0 && d < 16
    ensures Numeral(16 * m + d, 16, false) == Numeral(m, 16, false) + [Digit(d, false)]
  {
    assert (16 * m + d) / 16 == m && (16 * m + d) % 16 == d;
  }

  /** The number whose hexadecimal digits are those of `high` followed by the last `k` of `low`. */
  function Joined(high: nat, low: nat, k: nat): nat {
    if k == 0 then high else 16 * Joined(high, low / 16, k - 1) + low % 16
  }

  lemma {:induction false} NumeralOfJoined(high: nat, low: nat, k: nat)
    requires high > 0
    ensures Joined(high, low, k) > 0
    ensures Numeral(Joined(high, low, k), 16, false) == Numeral(high, 16, false) + LastDigits(low, k)
  {
    var front := Numeral(high, 16, false);
    if k == 0 {
      assert front + "" == front;
    } else {
      NumeralOfJoined(high, low / 16, k - 1);
      NumeralSnoc(Joined(high, low / 16, k - 1), low % 16);
      ConcatAssociative(front, LastDigits(low / 16, k - 1), [Digit(low % 16, false)]);
    }
  }

  lemma {:induction false} JoinedIsSum(high: nat, low: nat, k: nat)
    requires low < Pow16(k)
    ensures Joined(high, low, k) == high * Pow16(k) + low
  {
    if k > 0 {
      JoinedIsSum(high, low / 16, k - 1);
      var p := Pow16(k - 1);
      assert high * (16 * p) == 16 * (high * p);
    }
  }

  lemma {:induction false} ZeroDigits(k: nat)
    ensures LastDigits(0, k) == Repeated('0', k)
  {
    if k > 0 { ZeroDigits(k - 1); }
  }

  lemma {:induction false} NumeralLength(n: nat, k: nat)
    requires k >= 1 && n < Pow16(k)
    ensures |Numeral(n, 16, false)| <= k
  {
    if n >= 16 {
      assert Pow16(1) == 16;
      NumeralLength(n / 16, k - 1);
    }
  }

  lemma {:induction false} ZeroFilled(n: nat, k: nat)
    requires |Numeral(n, 16, false)| <= k
    ensures Repeated('0', k - |Numeral(n, 16, false)|) + Numeral(n, 16, false) == LastDigits(n, k)
  {
    if n < 16 {
      ZeroDigits(k - 1);
    } else {
      var front := Numeral(n / 16, 16, false);
      ZeroFilled(n / 16, k - 1);
      ConcatAssociative(Repeated('0', k - 1 - |front|), front, [Digit(n % 16, false)]);
    }
  }

  /** Sixteen digits hold one word; the number is a result so that the definitions are not unrolled. */
  lemma {:induction false} WordDigits() returns (k: nat)
    ensures k == 16 && Pow16(k) == TWO_TO_THE_64
  {
    k := 16;
    assert Pow16(4) == 0x1_0000;
    assert Pow16(8) == 0x1_0000_0000;
    assert Pow16(12) == 0x1_0000_0000_0000;
  }

  /** The formats under which printing is canonical. */
  predicate Plain(fmt: Format) {
    fmt.width <= 2 && !fmt.showBase && !fmt.upperCase && !fmt.adjust.Left?
  }

  lemma EmptyPrefix(s: string)
    ensures "" + s == s
  {
  }

  lemma {:induction false} PlainField(f: Format, n: nat)
    requires f.width == 0 && f.base == Hex && !f.showBase && !f.upperCase
    ensures Field(f, n) == Numeral(n, 16, false)
  {
    EmptyPrefix(Numeral(n, 16, false));
  }

  lemma {:induction false} ZeroFilledField(f: Format, n: uint64, k: nat)
    requires f.width == k >= 1 && n < Pow16(k)
    requires f.fill == '0' && !f.adjust.Left?
    requires f.base == Hex && !f.showBase && !f.upperCase
    ensures Field(f, n) == LastDigits(n, k)
  {
    var body := Numeral(n, 16, false);
    NumeralLength(n, k);
    ZeroFilled(n, k);
    EmptyPrefix(body);
    EmptyPrefix(Repeated('0', k - |body|));
  }

  lemma {:induction false} TwoFields(f: Format, high: uint64, low: uint64, k: nat)
    requires high > 0 && k >= 1 && low < Pow16(k)
    requires f.width == 0 && !f.adjust.Left?
    requires f.base == Hex && !f.showBase && !f.upperCase
    ensures Field(f, high) + Field(f.(width := k, fill := '0'), low) == Numeral(high * Pow16(k) + low, 16, false)
  {
    PlainField(f, high);
    ZeroFilledField(f.(width := k, fill := '0'), low, k);
    NumeralOfJoined(high, low, k);
    JoinedIsSum(high, low, k);
  }

  lemma {:induction false} TwoWords(f: Format, high: uint64, low: uint64)
    requires high > 0
    requires f.width == 0 && !f.adjust.Left?
    requires f.base == Hex && !f.showBase && !f.upperCase
    ensures Field(f, high) + Field(f.(width := 16, fill := '0'), low) == Numeral(Number(high, low), 16, false)
  {
    var k := WordDigits();
    TwoFields(f, high, low, k);
  }

  lemma {:induction false} PlainPrefix(fmt: Format)
    requires fmt.width <= 2
    ensures Padded(fmt, "", "0x") == "0x"
  {
    EmptyPrefix("0x");
  }

  /** Under a plain format, which includes the default one, the output is the shortest hexadecimal
      numeral of the whole number. */
  lemma {:induction false} PrintsCanonically(fmt: Format, high: uint64, low: uint64)
    requires Plain(fmt)
    ensures Printed(fmt, high, low) == Canonical(Number(high, low))
  {
    var f := fmt.(width := 0, base := Hex);
    PlainPrefix(fmt);
    if high == 0 {
      PlainField(f, low);
    } else {
      TwoWords(f, high, low);
    }
  }

  /** Exactly the plain formats print every number canonically. */
  lemma {:induction false} CanonicalIffPlain(fmt: Format)
    ensures Plain(fmt) <==>
            forall high: uint64, low: uint64 :: Printed(fmt, high, low) == Canonical(Number(high, low))
  {
    if Plain(fmt) {
      forall high: uint64, low: uint64 ensures Printed(fmt, high, low) == Canonical(Number(high, low)) {
        PrintsCanonically(fmt, high, low);
      }
    } else {
      var w := NotCanonical(fmt);
      assert Printed(fmt, w.0, w.1) != Canonical(Number(w.0, w.1));
    }
  }

  /** A number that a format that is not plain prints differently. */
  function Witness(fmt: Format): (uint64, uint64) {
    if fmt.width > 2 then (0, 0)
    else if fmt.showBase then (0, 1)
    else if fmt.upperCase then (0, 10)
    else (1, 1)
  }

  /** The base the stream was set to plays no role. */
  lemma BaseIsIgnored(fmt: Format, base: Base, high: uint64, low: uint64)
    ensures Printed(fmt.(base := base), high, low) == Printed(fmt, high, low)
  {
  }

  /** A stream that shows bases repeats the prefix, in its own case, unless the number is zero. */
  lemma {:induction false} ShowBaseRepeatsPrefix(fmt: Format, low: uint64)
    requires fmt.width <= 2 && fmt.showBase
    ensures Printed(fmt, 0, low) ==
            if low == 0 then "0x0"
            else "0x" + ((if fmt.upperCase then "0X" else "0x") + Numeral(low, 16, fmt.upperCase))
  {
    PlainPrefix(fmt);
    EmptyPrefix(Numeral(low, 16, fmt.upperCase));
  }

  lemma {:induction false} NotCanonical(fmt: Format) returns (w: (uint64, uint64))
    requires !Plain(fmt)
    ensures Printed(fmt, w.0, w.1) != Canonical(Number(w.0, w.1))
  {
    w := Witness(fmt);
    if fmt.width > 2 {
      assert |Printed(fmt, 0, 0)| > 3;
    } else if fmt.showBase {
      assert |Printed(fmt, 0, 1)| > 3;
    } else if fmt.upperCase {
      assert Printed(fmt, 0, 10)[2] == 'A';
      assert Canonical(10)[2] == 'a';
    } else {
      PrintsCanonically(fmt.(adjust := Right), 1, 1);
      var n := Numeral(1, 16, false);
      assert n == "1";
      assert Printed(fmt, 1, 1)[3] == '1';
      assert Printed(fmt.(adjust := Right), 1, 1)[3] == '0';
    }
  }

  // ---- Printing can be read back

  lemma DigitValue(d: nat, upperCase: bool)
    requires d < 16
    ensures HexValue(Digit(d, upperCase)) == d
    ensures d >= 10 ==> if upperCase then 'A' <= Digit(d, upperCase) <= 'F' else 'a' <= Digit(d, upperCase) <= 'f'
  {
  }

  lemma {:induction false} ParseNumeral(n: nat, upperCase: bool)
    ensures Parse(Numeral(n, 16, upperCase)) == n
  {
    var s := Numeral(n, 16, upperCase);
    if n < 16 {
      DigitValue(n, upperCase);
      assert s[..0] == "";
    } else {
      ParseNumeral(n / 16, upperCase);
      DigitValue(n % 16, upperCase);
      assert s[..|s| - 1] == Numeral(n / 16, 16, upperCase);
    }
  }

  /** Round trip: the digits printed on a stream with default format parse to the number. */
  lemma {:induction false} PrintParses(high: uint64, low: uint64)
    ensures Printed(DEFAULT_FORMAT, high, low)[..2] == "0x"
    ensures Parse(Printed(DEFAULT_FORMAT, high, low)[2..]) == Number(high, low)
  {
    var n := Number(high, low);
    PrintsCanonically(DEFAULT_FORMAT, high, low);
    ParseNumeral(n, false);
    assert Canonical(n)[2..] == Numeral(n, 16, false);
  }

  /** So different numbers print differently. */
  lemma {:induction false} PrintIsInjective(high: uint64, low: uint64, high': uint64, low': uint64)
    requires Printed(DEFAULT_FORMAT, high, low) == Printed(DEFAULT_FORMAT, high', low')
    ensures high == high' && low == low'
  {
    PrintParses(high, low);
    PrintParses(high', low');
  }
}
