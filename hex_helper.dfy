/**
 * Core.Util.HexHelper: the digit test the hexadecimal text boxes use, and the
 * test on virtual-key codes that lets a hexadecimal key through.
 */
module HexHelper {
  import opened Wrappers
  import opened ByteParsing
  import opened Convert

  /** Char.IsDigit, restricted to the ASCII digits. */
  predicate IsDigit(ch: char) {
    '0' <= ch <= '9'
  }

  /**
   * The test AreValidHexDigits applies to each character: a digit, 'A'..'F',
   * or -- as written -- the lower-case range 'a'..'a'.
   */
  predicate PassesHexTest(ch: char) {
    IsDigit(ch) || ('A' <= ch <= 'F') || ('a' <= ch <= 'a')
  }

  /** Every character of str passes the test. */
  predicate ValidHexDigits(str: string) {
    forall i | 0 <= i < |str| :: PassesHexTest(str[i])
  }

  /**
   * HexHelper.AreValidHexDigits: walks the text and stops at the first
   * character that fails the test; the result is false exactly when there is one.
   */
  method AreValidHexDigits(str: string) returns (ret: bool)
    ensures ret == ValidHexDigits(str)
    ensures !ret <==> exists i | 0 <= i < |str| :: !PassesHexTest(str[i])
  {
    ret := true;
    var i := 0;
    while i < |str|
      invariant 0 <= i <= |str|
      invariant forall j | 0 <= j < i :: PassesHexTest(str[j])
    {
      if !PassesHexTest(str[i]) {
        ret := false;
        break;
      }
      i := i + 1;
    }
  }

  /** The empty text passes. */
  lemma EmptyIsValid()
    ensures ValidHexDigits("")
  {
  }

  /** The early exit does not matter: a concatenation passes iff both parts pass. */
  lemma ValidHexDigitsConcat(s: string, t: string)
    ensures ValidHexDigits(s + t) <==> ValidHexDigits(s) && ValidHexDigits(t)
  {
    if ValidHexDigits(s + t) {
      forall i | 0 <= i < |s| ensures PassesHexTest(s[i]) {
        assert s[i] == (s + t)[i];
      }
      forall i | 0 <= i < |t| ensures PassesHexTest(t[i]) {
        assert t[i] == (s + t)[|s| + i];
      }
    }
    if ValidHexDigits(s) && ValidHexDigits(t) {
      forall i | 0 <= i < |s + t| ensures PassesHexTest((s + t)[i]) {
        if i < |s| { assert (s + t)[i] == s[i]; } else { assert (s + t)[i] == t[i - |s|]; }
      }
    }
  }

  /** Every text over '0'..'9' and 'A'..'F' passes. */
  lemma UpperHexTextIsValid(s: string)
    requires forall i | 0 <= i < |s| :: IsUpperHexDigit(s[i])
    ensures ValidHexDigits(s)
  {
  }

  /** Of the lower-case hexadecimal letters only 'a' passes. */
  lemma OnlyLowercaseA(ch: char)
    requires 'a' <= ch <= 'f'
    ensures PassesHexTest(ch) <==> ch == 'a'
  {
  }

  /** Every text Convert writes passes the test. */
  lemma ConvertOutputIsValid(b: byte, data: seq<byte>)
    ensures ValidHexDigits(HexToString(b))
    ensures ValidHexDigits(HexOfBuffer(data))
  {
  }

  /**
   * The digit test as written rejects text that ParseByteToHex reads: a
   * lower-case digit 'b' to 'f' fails it ("b0", say), yet the pair parses to
   * the byte it spells ("b0" to 0xB0).
   */
  lemma LowercaseRejectedButParsed(high: char, low: char)
    requires 'b' <= high <= 'f' && IsHexDigit(low)
    ensures !ValidHexDigits([high, low])
    ensures DigitValue(high) * 16 + DigitValue(low) < 0x100
    ensures ParseByteToHex([high, low]) == Ok((DigitValue(high) * 16 + DigitValue(low)) as byte)
  {
    var pair := [high, low];
    assert !PassesHexTest(pair[0]);
    assert !IsWhite(pair[0]) && !IsWhite(pair[1]);
    assert Trim(pair) == pair;
    HexValueOfPair(high, low);
    NibblesOf(DigitValue(high), DigitValue(low));
  }

  /**
   * The test with the lower-case range it evidently means, 'a' to 'f', is
   * Convert's AllHex: it widens the test as written by exactly the letters
   * 'b' to 'f', and a two-character entry without white space passes it
   * exactly when ParseByteToHex reads it.
   */
  lemma IntendedTestMatchesParser(s: string)
    ensures AllHex(s) <==> forall i | 0 <= i < |s| :: PassesHexTest(s[i]) || 'b' <= s[i] <= 'f'
    ensures ValidHexDigits(s) ==> AllHex(s)
    ensures |s| == 2 && !IsWhite(s[0]) && !IsWhite(s[1]) ==> (AllHex(s) <==> ParseByteToHex(s).Ok?)
  {
    if |s| == 2 && !IsWhite(s[0]) && !IsWhite(s[1]) {
      PairParsesIffHex(s);
    }
  }


  // Windows.System.VirtualKey codes of the keys the test admits.
  const Number0: int := 48
  const Number9: int := 57
  const KeyA: int := 65
  const KeyF: int := 70

  /**
   * HexHelper.IsValidHexDigitKey: the keys Number0..Number9 and A..F. Their
   * codes are the ASCII codes of the upper-case digits they type.
   */
  function IsValidHexDigitKey(key: int): (ok: bool)
    ensures ok <==> 0 <= key < 0x80 && IsUpperHexDigit(key as char)
  {
    (key >= Number0 && key <= Number9) || (key >= KeyA && key <= KeyF)
  }

  /** Every key let through types a character that AreValidHexDigits accepts. */
  lemma KeyTypesValidDigit(key: int)
    requires IsValidHexDigitKey(key)
    ensures PassesHexTest(key as char)
  {
  }
}
