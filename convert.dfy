/**
 * Core.Util.Convert: one byte as two upper-case hexadecimal digits, a byte
 * buffer as the concatenation of those pairs, and the two parses back.
 */
module Convert {
  import opened Wrappers
  import opened ByteParsing

  /** A digit NumberStyles.HexNumber reads, in either case. */
  predicate IsHexDigit(c: char) {
    '0' <= c <= '9' || 'A' <= c <= 'F' || 'a' <= c <= 'f'
  }

  /** A digit the "X" format writes. */
  predicate IsUpperHexDigit(c: char) {
    '0' <= c <= '9' || 'A' <= c <= 'F'
  }

  /** Every character of s is a hexadecimal digit of either case. */
  predicate AllHex(s: string) {
    forall i | 0 <= i < |s| :: IsHexDigit(s[i])
  }

  function DigitValue(c: char): (v: nat)
    requires IsHexDigit(c)
    ensures v < 16
  {
    if '0' <= c <= '9' then c as int - '0' as int
    else if 'A' <= c <= 'F' then c as int - 'A' as int + 10
    else c as int - 'a' as int + 10
  }

  /** The number the hexadecimal digits s spell, most significant first. */
  function HexValue(s: string): nat
    requires AllHex(s)
  {
    if s == [] then 0 else HexValue(s[..|s| - 1]) * 16 + DigitValue(s[|s| - 1])
  }

  /** The digit the "X" format writes for a nibble; it reads back as that nibble. */
  function UpperDigit(v: nat): (c: char)
    requires v < 16
    ensures IsUpperHexDigit(c) && DigitValue(c) == v
  {
    if v < 10 then ('0' as int + v) as char else ('A' as int + v - 10) as char
  }

  /**
   * Convert.HexToString: string.Format("{0:X02}", b), exactly two upper-case
   * digits, zero-padded, that spell b.
   */
  function HexToString(hexValue: byte): (text: string)
    ensures |text| == 2 && IsUpperHexDigit(text[0]) && IsUpperHexDigit(text[1])
    ensures AllHex(text) && HexValue(text) == hexValue as int
  {
    var high, low := UpperDigit(hexValue as nat / 16), UpperDigit(hexValue as nat % 16);
    HexValueOfPair(high, low);
    [high, low]
  }

  lemma HexValueOfPair(high: char, low: char)
    requires IsHexDigit(high) && IsHexDigit(low)
    ensures AllHex([high, low]) && HexValue([high, low]) == DigitValue(high) * 16 + DigitValue(low)
  {
    var pair := [high, low];
    assert pair[..|pair| - 1] == [high];
    assert [high][..|[high]| - 1] == [];
    assert HexValue([high]) == DigitValue(high);
  }

  /**
   * Convert.ParseByteToHex: Byte.Parse(text, NumberStyles.HexNumber) --
   * white space around the digits, then one or more hexadecimal digits of
   * either case with any number of leading zeros and no sign or prefix.
   */
  function ParseByteToHex(hexStr: string): (r: Result<byte, ParseError>)
  {
    var t := Trim(hexStr);
    if t == [] || !AllHex(t) then Err(FormatError)
    else if HexValue(t) > 0xFF then Err(OverflowError)
    else Ok(HexValue(t) as byte)
  }

  /** Every byte survives HexToString followed by ParseByteToHex. */
  lemma HexRoundTrip(b: byte)
    ensures ParseByteToHex(HexToString(b)) == Ok(b)
  {
    var text := HexToString(b);
    assert !IsWhite(text[0]) && !IsWhite(text[1]);
    assert Trim(text) == text;
  }

  /** HexToString is one-to-one: distinct bytes have distinct texts. */
  lemma HexToStringInjective(a: byte, b: byte)
    requires HexToString(a) == HexToString(b)
    ensures a == b
  {
    HexRoundTrip(a);
    HexRoundTrip(b);
  }

  /** An upper-case digit is the one the "X" format writes for its value. */
  lemma UpperDigitOfValue(c: char)
    requires IsUpperHexDigit(c)
    ensures UpperDigit(DigitValue(c)) == c
  {
  }

  /**
   * HexToString of a parsed byte gives the parsed text back exactly when
   * that text was already two upper-case digits: every other accepted
   * spelling (lower case, surrounding white space, one digit, extra leading
   * zeros) comes back in the canonical form instead.
   */
  lemma HexToStringOfParsed(s: string, b: byte)
    requires ParseByteToHex(s) == Ok(b)
    ensures HexToString(b) == s <==> (|s| == 2 && IsUpperHexDigit(s[0]) && IsUpperHexDigit(s[1]))
  {
    if |s| == 2 && IsUpperHexDigit(s[0]) && IsUpperHexDigit(s[1]) {
      assert s == [s[0], s[1]];
      CanonicalPair(s[0], s[1]);
    }
  }

  /** Two upper-case digits are the HexToString text of the byte they spell, and parse to it. */
  lemma CanonicalPair(high: char, low: char)
    requires IsUpperHexDigit(high) && IsUpperHexDigit(low)
    ensures var v := DigitValue(high) * 16 + DigitValue(low);
      v < 0x100 && ParseByteToHex([high, low]) == Ok(v as byte) && HexToString(v as byte) == [high, low]
  {
    var pair := [high, low];
    assert !IsWhite(pair[0]) && !IsWhite(pair[1]);
    assert Trim(pair) == pair;
    HexValueOfPair(high, low);
    var v := DigitValue(high) * 16 + DigitValue(low);
    NibblesOf(DigitValue(high), DigitValue(low));
    UpperDigitOfValue(high);
    UpperDigitOfValue(low);
  }

  lemma NibblesOf(high: nat, low: nat)
    requires high < 16 && low < 16
    ensures (high * 16 + low) / 16 == high && (high * 16 + low) % 16 == low && high * 16 + low < 0x100
  {
  }

  /** ParseByteToHex refuses a text with nothing but white space, the empty text included. */
  lemma ParseByteToHexRejectsBlank(hexStr: string)
    requires forall i | 0 <= i < |hexStr| :: IsWhite(hexStr[i])
    ensures ParseByteToHex(hexStr) == Err(FormatError)
  {
    assert Trim(hexStr) == [];
  }

  /** ParseByteToHex refuses a text holding a character that is neither white space nor a hexadecimal digit. */
  lemma ParseByteToHexRejectsNonHex(hexStr: string, i: int)
    requires 0 <= i < |hexStr| && !IsWhite(hexStr[i]) && !IsHexDigit(hexStr[i])
    ensures ParseByteToHex(hexStr) == Err(FormatError)
  {
    TrimKeeps(hexStr, i);
  }

  /** ParseByteToHex refuses digits that spell a value above 0xFF, however many leading zeros come first. */
  lemma ParseByteToHexRejectsOverflow(hexStr: string)
    requires hexStr != [] && AllHex(hexStr) && HexValue(hexStr) > 0xFF
    ensures ParseByteToHex(hexStr) == Err(OverflowError)
  {
    forall i | 0 <= i < |hexStr| ensures !IsWhite(hexStr[i]) {
      assert IsHexDigit(hexStr[i]);
    }
  }

  /** A single hexadecimal digit is a whole byte text: "A" parses to 0x0A. */
  lemma SingleDigitParses(c: char)
    requires IsHexDigit(c)
    ensures ParseByteToHex([c]) == Ok(DigitValue(c) as byte)
  {
    var t := [c];
    assert !IsWhite(t[0]);
    assert Trim(t) == t;
    assert t[..0] == [];
    assert AllHex(t) && HexValue(t) == HexValue([]) * 16 + DigitValue(c);
  }

  /**
   * The intended digit test agrees with the parse on the two-character texts
   * the header fields are typed as: a pair of non-white characters parses
   * exactly when both are hexadecimal digits of either case.
   */
  lemma PairParsesIffHex(s: string)
    requires |s| == 2 && !IsWhite(s[0]) && !IsWhite(s[1])
    ensures ParseByteToHex(s).Ok? <==> AllHex(s)
  {
    assert Trim(s) == s;
    if AllHex(s) {
      assert s == [s[0], s[1]];
      HexValueOfPair(s[0], s[1]);
    }
  }

  // ---------------------------------------------------------------------------
  // Buffers

  /** The text of a buffer: the HexToString pairs of its bytes, in order. */
  function HexOfBuffer(data: seq<byte>): (text: string)
    ensures |text| == 2 * |data|
    ensures forall i | 0 <= i < |text| :: IsUpperHexDigit(text[i])
  {
    if data == [] then [] else HexToString(data[0]) + HexOfBuffer(data[1..])
  }

  /** The text of a concatenation is the concatenation of the texts. */
  lemma {:induction false} HexOfBufferConcat(a: seq<byte>, b: seq<byte>)
    ensures HexOfBuffer(a + b) == HexOfBuffer(a) + HexOfBuffer(b)
  {
    if a != [] {
      assert (a + b)[1..] == a[1..] + b;
      HexOfBufferConcat(a[1..], b);
    } else {
      assert a + b == b;
    }
  }

  /**
   * Convert.BufferToString: appends the pair of every byte to a text,
   * first byte first.
   */
  method BufferToString(data: seq<byte>) returns (text: string)
    ensures text == HexOfBuffer(data)
  {
    text := "";
    for i := 0 to |data|
      invariant text == HexOfBuffer(data[..i])
    {
      assert data[..i + 1] == data[..i] + [data[i]];
      HexOfBufferConcat(data[..i], [data[i]]);
      assert HexOfBuffer([data[i]]) == HexToString(data[i]);
      text := text + HexToString(data[i]);
    }
    assert data[..|data|] == data;
  }

  /** s with every ' ' removed; other white space stays. */
  function WithoutSpaces(s: string): (t: string)
    ensures |t| <= |s|
    ensures forall i | 0 <= i < |t| :: t[i] != ' '
  {
    if s == [] then []
    else WithoutSpaces(s[..|s| - 1]) + (if s[|s| - 1] == ' ' then [] else [s[|s| - 1]])
  }

  /** s without its last character when its length is odd. */
  function DropOddTail(s: string): (t: string)
    ensures |t| == |s| / 2 * 2
  {
    if |s| % 2 != 0 then s[..|s| - 1] else s
  }

  /** The k-th two-character group of s. */
  function Group(s: string, k: nat): string
    requires 2 * k + 2 <= |s|
  {
    s[2 * k..2 * k + 2]
  }

  /** Prefix bytes to a decoded buffer; an error stays that error. */
  function Prepend(prefix: seq<byte>, r: Result<seq<byte>, ParseError>): Result<seq<byte>, ParseError>
  {
    match r
    case Ok(rest) => Ok(prefix + rest)
    case Err(e) => Err(e)
  }

  /** A parse of one two-character group. */
  type GroupParser = string -> Result<byte, ParseError>

  /** Decodes the two-character groups of s with parse, left to right, stopping at the first that fails. */
  function DecodeGroupsWith(parse: GroupParser, s: string): Result<seq<byte>, ParseError>
    decreases |s|
  {
    if |s| < 2 then Ok([])
    else
      match parse(s[..2])
      case Err(e) => Err(e)
      case Ok(b) => Prepend([b], DecodeGroupsWith(parse, s[2..]))
  }

  /** The groups of s decoded with ParseByteToHex. */
  function DecodeGroups(s: string): Result<seq<byte>, ParseError>
  {
    DecodeGroupsWith(ParseByteToHex, s)
  }

  /** What Convert.ParseBufferToHex computes: spaces out, an odd last character dropped, then the groups. */
  function DecodeBuffer(data: string): Result<seq<byte>, ParseError>
  {
    DecodeGroups(DropOddTail(WithoutSpaces(data)))
  }

  /**
   * Convert.ParseBufferToHex: copies the non-space characters, drops an odd
   * last one, then parses the groups of two left to right; the first group
   * that does not parse ends the call with its error.
   */
  method ParseBufferToHex(data: string) returns (r: Result<seq<byte>, ParseError>)
    ensures r == DecodeBuffer(data)
  {
    var bufferStrTmp := "";
    for i := 0 to |data|
      invariant bufferStrTmp == WithoutSpaces(data[..i])
    {
      assert data[..i + 1][..i] == data[..i];
      if data[i] != ' ' {
        bufferStrTmp := bufferStrTmp + [data[i]];
      }
    }
    assert data[..|data|] == data;
    var bufferStr := if |bufferStrTmp| % 2 != 0 then bufferStrTmp[..|bufferStrTmp| - 1] else bufferStrTmp;
    assert bufferStr == DropOddTail(WithoutSpaces(data));
    r := ParseGroups(bufferStr);
  }

  /** The second loop of ParseBufferToHex, over the space-free text of even length. */
  method ParseGroups(bufferStr: string) returns (r: Result<seq<byte>, ParseError>)
    requires |bufferStr| % 2 == 0
    ensures r == DecodeGroups(bufferStr)
  {
    ghost var groups := |bufferStr| / 2;
    assert |bufferStr| == 2 * groups;
    var buffer: seq<byte> := [];
    var n := 0;
    DecodeFrom(ParseByteToHex, bufferStr);
    while n < |bufferStr|
      invariant 0 <= n <= |bufferStr| && n == 2 * |buffer| && |bufferStr| == 2 * groups
      invariant Prepend(buffer, DecodeGroupsWith(ParseByteToHex, bufferStr[n..])) == DecodeGroupsWith(ParseByteToHex, bufferStr)
    {
      assert |buffer| < groups;
      var parsed := ParseByteToHex(bufferStr[n..n + 2]);
      DecodeStep(ParseByteToHex, bufferStr, n, buffer);
      if parsed.Err? {
        return Err(parsed.error);
      }
      buffer := buffer + [parsed.value];
      n := n + 2;
    }
    DecodeDone(ParseByteToHex, bufferStr, buffer);
    r := Ok(buffer);
  }

  // ---------------------------------------------------------------------------
  // The structure of a group decode, for any group parse

  lemma PrependTwice(a: seq<byte>, b: seq<byte>, r: Result<seq<byte>, ParseError>)
    ensures Prepend(a, Prepend(b, r)) == Prepend(a + b, r)
    ensures Prepend([], r) == r
  {
    if r.Ok? {
      assert a + (b + r.value) == (a + b) + r.value;
    }
    if r.Ok? {
      assert [] + r.value == r.value;
    }
  }

  /** The loop invariant of ParseBufferToHex holds before the first group. */
  lemma DecodeFrom(parse: GroupParser, s: string)
    ensures Prepend([], DecodeGroupsWith(parse, s[0..])) == DecodeGroupsWith(parse, s)
  {
    assert s[0..] == s;
    PrependTwice([], [], DecodeGroupsWith(parse, s));
  }

  /** One group of ParseBufferToHex: an error ends the decode with it, a byte extends the prefix. */
  lemma DecodeStep(parse: GroupParser, s: string, n: nat, buffer: seq<byte>)
    requires n + 2 <= |s|
    requires Prepend(buffer, DecodeGroupsWith(parse, s[n..])) == DecodeGroupsWith(parse, s)
    ensures parse(s[n..n + 2]).Err? ==> DecodeGroupsWith(parse, s) == Err(parse(s[n..n + 2]).error)
    ensures parse(s[n..n + 2]).Ok? ==>
              Prepend(buffer + [parse(s[n..n + 2]).value], DecodeGroupsWith(parse, s[n + 2..])) == DecodeGroupsWith(parse, s)
  {
    var rest := s[n..];
    assert rest[..2] == s[n..n + 2];
    assert rest[2..] == s[n + 2..];
    var parsed := parse(s[n..n + 2]);
    if parsed.Ok? {
      PrependTwice(buffer, [parsed.value], DecodeGroupsWith(parse, s[n + 2..]));
    }
  }

  /** Once every group is consumed, the prefix is the whole decode. */
  lemma DecodeDone(parse: GroupParser, s: string, buffer: seq<byte>)
    requires Prepend(buffer, DecodeGroupsWith(parse, s[|s|..])) == DecodeGroupsWith(parse, s)
    ensures DecodeGroupsWith(parse, s) == Ok(buffer)
  {
    assert s[|s|..] == [];
    assert buffer + [] == buffer;
  }

  lemma DecodeGroupsStep(parse: GroupParser, s: string, b: byte)
    requires |s| >= 2 && parse(s[..2]) == Ok(b)
    ensures DecodeGroupsWith(parse, s) == Prepend([b], DecodeGroupsWith(parse, s[2..]))
  {
  }

  /** A successful decode yields one byte per full group. */
  lemma {:induction false} DecodeGroupsLength(parse: GroupParser, s: string)
    requires DecodeGroupsWith(parse, s).Ok?
    ensures |DecodeGroupsWith(parse, s).value| == |s| / 2
    decreases |s|
  {
    if |s| >= 2 {
      DecodeGroupsLength(parse, s[2..]);
    }
  }

  /** A failed decode names a group that does not parse. */
  lemma {:induction false} FailingGroup(parse: GroupParser, s: string) returns (k: nat)
    requires DecodeGroupsWith(parse, s).Err?
    ensures 2 * k + 2 <= |s| && parse(Group(s, k)).Err?
    decreases |s|
  {
    assert |s| >= 2;
    assert Group(s, 0) == s[..2];
    if parse(s[..2]).Err? {
      k := 0;
    } else {
      var j := FailingGroup(parse, s[2..]);
      GroupShift(s, j);
      k := j + 1;
    }
  }

  /** A group that does not parse makes the whole decode fail. */
  lemma {:induction false} FailsAtGroup(parse: GroupParser, s: string, k: nat)
    requires 2 * k + 2 <= |s| && parse(Group(s, k)).Err?
    ensures DecodeGroupsWith(parse, s).Err?
    decreases k
  {
    assert Group(s, 0) == s[..2];
    if k > 0 && parse(s[..2]).Ok? {
      GroupShift(s, k - 1);
      FailsAtGroup(parse, s[2..], k - 1);
    }
  }

  lemma GroupShift(s: string, k: nat)
    requires 2 * k + 4 <= |s|
    ensures Group(s[2..], k) == Group(s, k + 1)
  {
  }

  // ---------------------------------------------------------------------------
  // Properties of the buffer parse

  /** A text without spaces is its own WithoutSpaces. */
  lemma {:induction false} WithoutSpacesOfSpaceFree(s: string)
    requires forall i | 0 <= i < |s| :: s[i] != ' '
    ensures WithoutSpaces(s) == s
  {
    if s != [] {
      WithoutSpacesOfSpaceFree(s[..|s| - 1]);
      assert s[..|s| - 1] + [s[|s| - 1]] == s;
    }
  }

  /** Decoding the groups of a buffer's text gives the buffer back. */
  lemma DecodeGroupsOfHex(data: seq<byte>)
    ensures DecodeGroups(HexOfBuffer(data)) == Ok(data)
  {
    forall b: byte
      ensures ParseByteToHex(HexToString(b)) == Ok(b)
    {
      HexRoundTrip(b);
    }
    DecodeGroupsOfHexWith(ParseByteToHex, data);
  }

  /** The same for any group parse that reads every HexToString text back. */
  lemma {:induction false} DecodeGroupsOfHexWith(parse: GroupParser, data: seq<byte>)
    requires forall b: byte :: parse(HexToString(b)) == Ok(b)
    ensures DecodeGroupsWith(parse, HexOfBuffer(data)) == Ok(data)
  {
    if data != [] {
      DecodeGroupsOfHexWith(parse, data[1..]);
      DecodeGroupsCons(parse, data[0], HexOfBuffer(data[1..]));
      assert [data[0]] + data[1..] == data;
    }
  }

  /** A byte's pair in front of a text decodes to that byte in front of the text's bytes. */
  lemma DecodeGroupsCons(parse: GroupParser, b: byte, rest: string)
    requires parse(HexToString(b)) == Ok(b)
    ensures DecodeGroupsWith(parse, HexToString(b) + rest) == Prepend([b], DecodeGroupsWith(parse, rest))
  {
    var s := HexToString(b) + rest;
    assert s[..2] == HexToString(b);
    assert s[2..] == rest;
    DecodeGroupsStep(parse, s, b);
  }

  /** ParseBufferToHex undoes BufferToString: every buffer survives the round trip. */
  lemma BufferRoundTrip(data: seq<byte>)
    ensures DecodeBuffer(HexOfBuffer(data)) == Ok(data)
  {
    var text := HexOfBuffer(data);
    WithoutSpacesOfSpaceFree(text);
    assert DropOddTail(text) == text;
    DecodeGroupsOfHex(data);
  }

  /**
   * ParseBufferToHex yields floor(n / 2) bytes, n the number of non-space
   * characters: spaces are not counted and an unpaired last character is lost.
   */
  lemma BufferLength(data: string)
    requires DecodeBuffer(data).Ok?
    ensures |DecodeBuffer(data).value| == |WithoutSpaces(data)| / 2
  {
    DecodeGroupsLength(ParseByteToHex, DropOddTail(WithoutSpaces(data)));
  }

  /** An unpaired trailing character is dropped: "ABC" decodes as "AB" does. */
  lemma DropsOddTrailingCharacter(data: string, c: char)
    requires c != ' ' && |WithoutSpaces(data)| % 2 == 0
    ensures DecodeBuffer(data + [c]) == DecodeBuffer(data)
  {
    assert (data + [c])[..|data + [c]| - 1] == data;
    assert WithoutSpaces(data + [c]) == WithoutSpaces(data) + [c];
    assert DropOddTail(WithoutSpaces(data) + [c]) == WithoutSpaces(data);
  }

  /** Spaces play no part: removing them first changes nothing. */
  lemma SpacesIgnored(data: string)
    ensures DecodeBuffer(WithoutSpaces(data)) == DecodeBuffer(data)
  {
    WithoutSpacesOfSpaceFree(WithoutSpaces(data));
  }

  /** Some two-character group of s is not a byte ParseByteToHex accepts. */
  ghost predicate SomeGroupFails(s: string) {
    exists k: nat | 2 * k + 2 <= |s| :: ParseByteToHex(Group(s, k)).Err?
  }

  /** The decode fails exactly when some two-character group fails to parse as a byte. */
  lemma DecodeGroupsFailsIff(s: string)
    ensures DecodeGroups(s).Err? <==> SomeGroupFails(s)
  {
    if DecodeGroups(s).Err? {
      var k := FailingGroup(ParseByteToHex, s);
    }
    if SomeGroupFails(s) {
      var k: nat :| 2 * k + 2 <= |s| && ParseByteToHex(Group(s, k)).Err?;
      FailsAtGroup(ParseByteToHex, s, k);
    }
  }

  /** ParseBufferToHex fails exactly when a group of the space-free, even-length text does not parse. */
  lemma BufferFailsIff(data: string)
    ensures DecodeBuffer(data).Err? <==> SomeGroupFails(DropOddTail(WithoutSpaces(data)))
  {
    DecodeGroupsFailsIff(DropOddTail(WithoutSpaces(data)));
  }
}
