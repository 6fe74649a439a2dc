/**
 * System.Byte as the view model uses it: Byte.Parse(string) for the Le field,
 * Byte.ToString() for its display, and the white space that .NET number
 * parsing skips before and after the digits (shared with the hexadecimal
 * parse in module Convert). Only ASCII digits are modelled.
 */
module ByteParsing {
  import opened Wrappers

  /** System.Byte, an unsigned 8-bit value. */
  newtype byte = x: int | 0 <= x < 0x100

  /** What Byte.Parse throws: FormatException (not a number) or OverflowException (out of 0..255). */
  datatype ParseError = FormatError | OverflowError

  /** The white space number parsing skips: U+0009 through U+000D, and the space. */
  predicate IsWhite(c: char) {
    c == ' ' || '\t' <= c <= '\r'
  }

  function TrimStart(s: string): (t: string)
    ensures |t| <= |s|
    ensures t == s[|s| - |t|..]
    ensures t == [] || !IsWhite(t[0])
    ensures forall i | 0 <= i < |s| - |t| :: IsWhite(s[i])
  {
    if s != [] && IsWhite(s[0]) then TrimStart(s[1..]) else s
  }

  function TrimEnd(s: string): (t: string)
    ensures |t| <= |s|
    ensures t == s[..|t|]
    ensures t == [] || !IsWhite(t[|t| - 1])
    ensures forall i | |t| <= i < |s| :: IsWhite(s[i])
  {
    if s != [] && IsWhite(s[|s| - 1]) then TrimEnd(s[..|s| - 1]) else s
  }

  /** The part of s that number parsing reads: s without leading and trailing white space. */
  function Trim(s: string): (t: string)
    ensures t == [] || (!IsWhite(t[0]) && !IsWhite(t[|t| - 1]))
    ensures (forall i | 0 <= i < |s| :: !IsWhite(s[i])) ==> t == s
  {
    var u := TrimStart(s);
    assert u == [] || !IsWhite(u[0]);
    var t := TrimEnd(u);
    assert t != [] ==> t[0] == u[0];
    t
  }

  /** Trimming removes white space only: every other character of s survives it. */
  lemma TrimKeeps(s: string, i: int)
    requires 0 <= i < |s| && !IsWhite(s[i])
    ensures s[i] in Trim(s)
  {
    var u := TrimStart(s);
    var k := i - (|s| - |u|);
    assert 0 <= k < |u| && u[k] == s[i];
    var t := TrimEnd(u);
    assert k < |t|;
    assert t[k] == s[i];
  }

  predicate IsDecimalDigit(c: char) {
    '0' <= c <= '9'
  }

  predicate AllDecimal(s: string) {
    forall i | 0 <= i < |s| :: IsDecimalDigit(s[i])
  }

  /** The number the decimal digits s spell, most significant first. */
  function DecimalValue(s: string): nat
    requires AllDecimal(s)
  {
    if s == [] then 0 else DecimalValue(s[..|s| - 1]) * 10 + (s[|s| - 1] as int - '0' as int)
  }

  /**
   * Byte.ToString() on a value n: its decimal digits without leading zeros,
   * which spell n back.
   */
  function DecimalText(n: nat): (s: string)
    ensures s != [] && AllDecimal(s)
    ensures DecimalValue(s) == n
    ensures |s| > 1 ==> s[0] != '0'
  {
    if n < 10 then
      [('0' as int + n) as char]
    else
      var high := DecimalText(n / 10);
      var s := high + [('0' as int + n % 10) as char];
      assert s[..|s| - 1] == high;
      s
  }

  /**
   * Byte.Parse(s) with NumberStyles.Integer: optional white space, an optional
   * '+' or '-' sign, decimal digits, optional white space; a value outside
   * 0..255 (any nonzero negative value included) is an overflow.
   */
  function ParseDecimal(s: string): (r: Result<byte, ParseError>)
  {
    var t := Trim(s);
    var signed := t != [] && (t[0] == '+' || t[0] == '-');
    var digits := if signed then t[1..] else t;
    if digits == [] || !AllDecimal(digits) then Err(FormatError)
    else if t[0] == '-' && DecimalValue(digits) != 0 then Err(OverflowError)
    else if DecimalValue(digits) > 0xFF then Err(OverflowError)
    else Ok(DecimalValue(digits) as byte)
  }

  /** The Le field's display text parses back to the stored byte. */
  lemma DecimalRoundTrip(b: byte)
    ensures ParseDecimal(DecimalText(b as nat)) == Ok(b)
  {
    var s := DecimalText(b as nat);
    forall i | 0 <= i < |s| ensures !IsWhite(s[i]) {
      assert IsDecimalDigit(s[i]);
    }
    assert Trim(s) == s;
    assert IsDecimalDigit(s[0]);
    assert !(s[0] == '+' || s[0] == '-');
    assert DecimalValue(s) == b as nat;
  }

  /** Byte.Parse refuses a text holding a character that is neither white space, a sign nor a digit. */
  lemma ParseDecimalRejectsNonDigit(s: string, i: int)
    requires 0 <= i < |s| && !IsWhite(s[i]) && !IsDecimalDigit(s[i]) && s[i] != '+' && s[i] != '-'
    ensures ParseDecimal(s) == Err(FormatError)
  {
    var t := Trim(s);
    TrimKeeps(s, i);
    var k :| 0 <= k < |t| && t[k] == s[i];
    var digits := if t != [] && (t[0] == '+' || t[0] == '-') then t[1..] else t;
    if t[0] == '+' || t[0] == '-' {
      assert k != 0;
      assert digits[k - 1] == s[i];
    } else {
      assert digits[k] == s[i];
    }
  }
}
