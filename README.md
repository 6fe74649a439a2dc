# SCard demo core, modelled in Dafny

This project models the logic core of a smart-card demonstration app. The app
exchanges ISO 7816 APDUs (application protocol data units) with a card reader
behind a remote service. The modelled parts are:

- **Hexadecimal codec** (`Core.Util.Convert`, module `Convert`). A byte is written
  as two upper-case hex digits. A byte is read back with `Byte.Parse(text,
  NumberStyles.HexNumber)`, which skips surrounding white space and accepts
  either case and any number of digits. A buffer is written as the
  concatenation of its bytes' pairs. It is read by dropping spaces, dropping
  an unpaired last character and parsing the pairs left to right; the first
  pair that fails ends the call with its exception.
- **System.Byte parsing** (module `ByteParsing`). This covers the white space
  .NET number parsing skips, and the decimal `Byte.Parse` / `Byte.ToString`
  pair the Le field uses.
- **Hex-digit tests** (`Core.Util.HexHelper`, module `HexHelper`). The
  character test the hex text boxes use, and the virtual-key test.
- **`ReflectionExtensions.GetName`** (module `Reflection`). The type name after
  the last dot.
- **`NotifyPropertyChanged`** (module `Notification`). A class holding the
  dependency table and, instead of event handlers, a log of every
  PropertyChanged event delivered. `RaisePropertyChanged` raises the name,
  then recursively raises every dependent whose key matches, in table order.
  The recursion is proved to end when a ghost ranking of the names decreases
  along every edge of the table.
- **`BaseViewModel.IsLoading`** (module `Loading`). A class holding the C#
  `int` loading counter, with its 32-bit wrap-around written out.
- **`APDUExchangeViewModel`** (module `Apdu`). A class holding the APDU
  command, the last response, the connection flag, the reader name, the
  status text and the five text-length counters. Each property setter and
  each command (`Connect`, `Disconnect`, `Transmit`) is a method. The three
  `CanExecute` tests are predicates.

C# exceptions become `Result` or `Outcome` values: `FormatError` stands for
`FormatException` and `OverflowError` for `OverflowException`. A setter whose
parse throws reports `Fail` and keeps every assignment made before the throw,
as the C# code does. The smart card (`WinRTSCard/Smartcard.cs`) is a
parameter of each command method. `Connect` gets a function from the reader
name to the card's answer. `Transmit` gets a function from the command to a
response or an error message. `Disconnect` gets the card's answer.

The view model inherits from `NotifyPropertyChanged`; here it holds a
`NotifyPropertyChanged` object in `events` instead. The view model never
registers a dependency, so its invariant `Valid()` says the table is empty.
Each of its property changes therefore logs exactly the property's name.

Behaviour of the code worth knowing:

- **Transmit readiness.** It looks only at `Connected` and the five recorded
  text lengths. Whether the stored texts are valid hex plays no part.
- **Byte fields accept more than two hex digits.** They accept any text
  `Byte.Parse` accepts: "A" reads as 0x0A, and padded or lower-case text is
  read too. The getters always show the canonical two upper-case digits.
- **A failed parse.** The setter throws before `RaisePropertyChanged`. So it
  logs nothing and keeps the command byte, but the length it recorded first
  stays.
- **Setting Data to "3F0".** This stores the buffer [0x3F]: the unpaired last
  character is dropped. The getter then shows "3F".
- **`TransmitExecute` has no precondition.** It needs no readiness. A card
  error is caught and becomes the status text.

## Model

| member | source | states |
|---|---|---|
| Convert.HexToString | CoreUtil/Convert.cs:17-20 | the text has exactly two characters, each an upper-case hex digit, and the hex value they spell is the byte |
| Convert.HexRoundTrip | CoreUtil/Convert.cs:17-25 | ParseByteToHex of HexToString(b) gives b back, for every byte |
| Convert.HexToStringInjective | CoreUtil/Convert.cs:17-20 | distinct bytes get distinct texts |
| Convert.HexToStringOfParsed | CoreUtil/Convert.cs:17-25 | re-formatting a parsed byte gives the typed text back exactly when that text was two upper-case digits |
| Convert.CanonicalPair | CoreUtil/Convert.cs:17-25 | two upper-case digits parse to the byte they spell, and that byte formats back to the same two digits |
| Convert.ParseByteToHexRejectsBlank | CoreUtil/Convert.cs:22-25 | an empty or all-white-space text is a FormatError |
| Convert.ParseByteToHexRejectsNonHex | CoreUtil/Convert.cs:22-25 | a text with a character that is neither white space nor a hex digit is a FormatError |
| Convert.ParseByteToHexRejectsOverflow | CoreUtil/Convert.cs:22-25 | hex digits spelling a value above 0xFF give an OverflowError |
| Convert.PairParsesIffHex | CoreUtil/Convert.cs:22-25 | a two-character text without white space parses if and only if both characters are hex digits |
| Convert.ParseByteToHex | CoreUtil/Convert.cs:22-25 | Byte.Parse with HexNumber: white space around the text is skipped; an empty or non-hex remainder is a FormatError, a value above 0xFF an OverflowError, anything else the byte it spells (its properties are the lemmas in the rows around it) |
| Convert.SingleDigitParses | CoreUtil/Convert.cs:22-25 | a single hex digit is accepted as a whole byte text and parses to its value |
| Convert.HexOfBuffer | CoreUtil/Convert.cs:27-40 | the text of a buffer is twice as long as the buffer and consists of upper-case hex digits only |
| Convert.HexOfBufferConcat | CoreUtil/Convert.cs:27-40 | the text of a concatenation is the concatenation of the texts |
| Convert.BufferToString | CoreUtil/Convert.cs:27-40 | the loop appends each byte's pair in order and yields the buffer's text |
| Convert.WithoutSpaces | CoreUtil/Convert.cs:50-56 | the copied text is no longer than the input and contains no space |
| Convert.DropOddTail | CoreUtil/Convert.cs:58-59 | the text keeps its even part: its length is the input length rounded down to even |
| Convert.ParseBufferToHex | CoreUtil/Convert.cs:42-68 | the two loops compute DecodeBuffer: spaces removed, an unpaired last character dropped, pairs parsed left to right, the first failing pair's error returned |
| Convert.ParseGroups | CoreUtil/Convert.cs:61-64 | the pair loop over an even-length text yields the group decode of that text, stopping at the first failing pair |
| Convert.DecodeGroupsLength | CoreUtil/Convert.cs:61-64 | a successful group decode yields one byte per full pair |
| Convert.FailingGroup | CoreUtil/Convert.cs:61-64 | a failed group decode names a pair inside the text that does not parse |
| Convert.FailsAtGroup | CoreUtil/Convert.cs:61-64 | one pair that does not parse makes the whole group decode fail |
| Convert.DecodeGroupsOfHex | CoreUtil/Convert.cs:27-64 | decoding the pairs of a buffer's text yields the buffer |
| Convert.DecodeGroupsOfHexWith | CoreUtil/Convert.cs:27-64 | the same holds for any pair parser that reads back every pair HexToString writes |
| Convert.BufferRoundTrip | CoreUtil/Convert.cs:27-68 | ParseBufferToHex of BufferToString(d) gives d back, for every buffer |
| Convert.BufferLength | CoreUtil/Convert.cs:50-64 | a successful decode has half as many bytes as the text has non-space characters, rounded down |
| Convert.DropsOddTrailingCharacter | CoreUtil/Convert.cs:58-59 | appending one non-space character to a text with an even number of non-space characters leaves the result unchanged ("ABC" decodes as "AB") |
| Convert.SpacesIgnored | CoreUtil/Convert.cs:50-56 | removing the spaces first changes nothing |
| Convert.DecodeGroupsFailsIff | CoreUtil/Convert.cs:61-64 | the group decode fails if and only if some pair of the text does not parse |
| Convert.BufferFailsIff | CoreUtil/Convert.cs:42-68 | ParseBufferToHex fails if and only if some pair of the space-free, even-length text does not parse |
| ByteParsing.Trim | CoreUtil/Convert.cs:22-25 | the digits Byte.Parse reads start and end with a non-white character, and a text without white space is read whole |
| ByteParsing.TrimKeeps | CoreUtil/Convert.cs:22-25 | trimming removes only white space: every other character survives it |
| ByteParsing.DecimalText | SCardDemoApp/APDUExchangeViewModel.cs:205 | Byte.ToString writes a non-empty run of decimal digits without a leading zero, spelling the value |
| ByteParsing.ParseDecimal | SCardDemoApp/APDUExchangeViewModel.cs:209 | Byte.Parse: white space around the text is skipped, one optional sign is allowed; no digits or a non-digit is a FormatError, a negative non-zero value or one above 255 an OverflowError (its properties are DecimalRoundTrip and ParseDecimalRejectsNonDigit) |
| ByteParsing.DecimalRoundTrip | SCardDemoApp/APDUExchangeViewModel.cs:205-209 | Byte.Parse reads back every text Byte.ToString writes |
| ByteParsing.ParseDecimalRejectsNonDigit | SCardDemoApp/APDUExchangeViewModel.cs:209 | a text with a character that is not white space, a digit or a sign is a FormatError |
| HexHelper.AreValidHexDigits | CoreUtil/HexHelper.cs:12-27 | the loop with its early break returns true if and only if every character passes the test, so false exactly when some character fails it |
| HexHelper.EmptyIsValid | CoreUtil/HexHelper.cs:14-26 | the empty text passes |
| HexHelper.ValidHexDigitsConcat | CoreUtil/HexHelper.cs:15-23 | a concatenation passes if and only if both parts pass |
| HexHelper.UpperHexTextIsValid | CoreUtil/HexHelper.cs:17-18 | every text of digits and 'A' to 'F' passes |
| HexHelper.OnlyLowercaseA | CoreUtil/HexHelper.cs:19 | of the lower-case letters 'a' to 'f', only 'a' passes the test |
| HexHelper.ConvertOutputIsValid | CoreUtil/HexHelper.cs:17-18 | every text HexToString or BufferToString writes passes |
| HexHelper.LowercaseRejectedButParsed | CoreUtil/HexHelper.cs:19 | a pair starting with 'b' to 'f' fails the test, yet ParseByteToHex reads it as the byte it spells |
| HexHelper.IntendedTestMatchesParser | CoreUtil/HexHelper.cs:17-19 | the test with the range 'a' to 'f' is the hex-digit test AllHex: it adds exactly 'b' to 'f' to the test as written, and a two-character text without white space passes it if and only if ParseByteToHex reads it |
| HexHelper.IsValidHexDigitKey | CoreUtil/HexHelper.cs:29-35 | true if and only if the key code is that of '0' to '9' or 'A' to 'F' |
| HexHelper.KeyTypesValidDigit | CoreUtil/HexHelper.cs:29-35 | every accepted key's character passes the digit test |
| Reflection.LastIndexOf | CoreUtil/ReflectionExtensions.cs:22 | the index is -1 exactly when the character is absent; otherwise it holds the character and no later position does |
| Reflection.GetName | CoreUtil/ReflectionExtensions.cs:19-26 | the name is a dot-free suffix of the full name: all of it when there is no dot, otherwise exactly the part after the last dot |
| Notification.WithDependency | CoreUtil/NotifyPropertyChanged.cs:70-79 | the pair is in the table afterwards; earlier entries keep their order and the table grows by at most one; a pair already present leaves the table unchanged |
| Notification.WithDependencyKeepsNoDuplicates | CoreUtil/NotifyPropertyChanged.cs:75-78 | a table without duplicate pairs keeps having none |
| Notification.WithDependencyIdempotent | CoreUtil/NotifyPropertyChanged.cs:75-78 | registering the same pair twice is the same as once |
| Notification.NotifyPropertyChanged.constructor | CoreUtil/NotifyPropertyChanged.cs:52-53 | no dependencies and no events yet |
| Notification.NotifyPropertyChanged.SetProperty | CoreUtil/NotifyPropertyChanged.cs:60-68 | returns true if and only if the value differs; the stored value is the new one; an equal value logs nothing; a new value logs the cascade of the name, with the name first |
| Notification.NotifyPropertyChanged.SetDependency | CoreUtil/NotifyPropertyChanged.cs:70-79 | the table becomes WithDependency of the old table |
| Notification.NotifyPropertyChanged.RaisePropertyChanged | CoreUtil/NotifyPropertyChanged.cs:99-123 | appends to the log exactly Raised: the name, then the cascade of each matching dependent in table order |
| Notification.RaisedAlone | CoreUtil/NotifyPropertyChanged.cs:114-122 | a name with no table entry logs exactly itself |
| Notification.RaisedNames | CoreUtil/NotifyPropertyChanged.cs:114-122 | the cascade starts with the name, and every later event names a dependent in the table |
| Notification.RaisedIndependentOfRank | CoreUtil/NotifyPropertyChanged.cs:114-122 | the events raised do not depend on which ranking proves termination |
| Loading.NextCounter | CoreUtil/BaseViewModel.cs:27-30 | true adds one below int.MaxValue; false never raises the counter; a non-negative counter stays non-negative unless it wraps |
| Loading.BaseViewModel.constructor | CoreUtil/BaseViewModel.cs:21-24 | the counter starts at 0, so IsLoading is false |
| Loading.BaseViewModel.IsLoading | CoreUtil/BaseViewModel.cs:24 | loading is on exactly while the counter is positive |
| Loading.BaseViewModel.SetIsLoading | CoreUtil/BaseViewModel.cs:25-37 | the counter becomes NextCounter of the old one; IsLoading is true exactly when the new counter is positive; the IsLoading cascade is logged |
| Loading.RaisesBy | CoreUtil/BaseViewModel.cs:27-28 | n true sets raise a non-negative counter by n when that stays below int.MaxValue |
| Loading.LowersBy | CoreUtil/BaseViewModel.cs:29-30 | n false sets lower a non-negative counter by n, stopping at 0 |
| Loading.NestedLoadingReturns | CoreUtil/BaseViewModel.cs:27-30 | n true sets followed by n false sets restore the counter |
| Loading.FreshLoadingBalanced | CoreUtil/BaseViewModel.cs:21-30 | from 0, loading is on after n true sets and off again after n false sets |
| Loading.CounterNeverNegative | CoreUtil/BaseViewModel.cs:27-30 | any sequence of sets keeps a non-negative counter non-negative and at most its start plus the number of sets |
| Loading.WrapAtIntMax | CoreUtil/BaseViewModel.cs:28 | at int.MaxValue a true set wraps to a negative counter, and a false set then stays at int.MinValue |
| Apdu.ApduExchangeViewModel.constructor | SCardDemoApp/APDUExchangeViewModel.cs:58-75 | command A0 A4 00 00, Le 0, data 3F 00; class, ins, P1 and P2 lengths 2; data length 4; not connected, no reader, no response; none of the three commands can execute |
| Apdu.ApduExchangeViewModel.CanExecuteConnectCommand | SCardDemoApp/APDUExchangeViewModel.cs:281-284 | Connect is possible exactly when not connected and a reader is named |
| Apdu.ApduExchangeViewModel.CanExecuteDisconnectCommand | SCardDemoApp/APDUExchangeViewModel.cs:312-315 | Disconnect is possible exactly when connected |
| Apdu.ApduExchangeViewModel.CanExecuteTransmitCommand | SCardDemoApp/APDUExchangeViewModel.cs:344-350 | Transmit is possible exactly when connected, the class, ins, P1 and P2 lengths are 2 and the data length is even |
| Apdu.ApduExchangeViewModel.Raise | CoreUtil/NotifyPropertyChanged.cs:114-122 | with the view model's empty dependency table, raising a property logs exactly its name |
| Apdu.ApduExchangeViewModel.Class | SCardDemoApp/APDUExchangeViewModel.cs:124 | the shown text is two upper-case digits that parse to the stored class byte |
| Apdu.ApduExchangeViewModel.Ins | SCardDemoApp/APDUExchangeViewModel.cs:146 | the same for the instruction byte |
| Apdu.ApduExchangeViewModel.P1 | SCardDemoApp/APDUExchangeViewModel.cs:168 | the same for P1 |
| Apdu.ApduExchangeViewModel.P2 | SCardDemoApp/APDUExchangeViewModel.cs:188 | the same for P2 |
| Apdu.ApduExchangeViewModel.Le | SCardDemoApp/APDUExchangeViewModel.cs:205 | the shown decimal text parses back to the stored Le byte |
| Apdu.ApduExchangeViewModel.Data | SCardDemoApp/APDUExchangeViewModel.cs:217 | the shown text is BufferToString's upper-case text of the data, twice as long as the data, and decodes back to it |
| Apdu.ApduExchangeViewModel.SW1 | SCardDemoApp/APDUExchangeViewModel.cs:237-243 | empty exactly when there is no response; otherwise it parses to the response's SW1 |
| Apdu.ApduExchangeViewModel.SW2 | SCardDemoApp/APDUExchangeViewModel.cs:245-251 | empty exactly when there is no response; otherwise it parses to the response's SW2 |
| Apdu.ApduExchangeViewModel.ResponseData | SCardDemoApp/APDUExchangeViewModel.cs:253-259 | empty without a response; otherwise BufferToString's upper-case text of the response data, which decodes back to it |
| Apdu.ApduExchangeViewModel.SetClass | SCardDemoApp/APDUExchangeViewModel.cs:127-133 | records the text length even when the parse fails; on success stores the parsed byte and logs Class; on failure keeps the command and logs nothing; afterwards transmit is enabled if and only if connected, the new text has length 2 and the other counters allow it |
| Apdu.ApduExchangeViewModel.SetIns | SCardDemoApp/APDUExchangeViewModel.cs:149-155 | the same for Ins and InsLength |
| Apdu.ApduExchangeViewModel.SetP1 | SCardDemoApp/APDUExchangeViewModel.cs:171-177 | the same for P1 and P1Length |
| Apdu.ApduExchangeViewModel.SetP2 | SCardDemoApp/APDUExchangeViewModel.cs:189-194 | stores the parsed byte or reports the parse error, logs P2 on success, touches no length counter, and leaves transmit readiness as it was |
| Apdu.ApduExchangeViewModel.SetLe | SCardDemoApp/APDUExchangeViewModel.cs:206-212 | writes the Le text length into P2Length, parses the text as decimal, stores Le and logs it on success; readiness follows the new P2Length |
| Apdu.ApduExchangeViewModel.SetData | SCardDemoApp/APDUExchangeViewModel.cs:218-224 | records the text length, stores the ParseBufferToHex result or reports its error, logs Data on success; transmit needs an even text length |
| Apdu.ApduExchangeViewModel.SetP2Recorded | SCardDemoApp/APDUExchangeViewModel.cs:189-194 | the P2 setter recording its text length in P2Length like the other byte setters, so readiness needs a two-character P2 |
| Apdu.ApduExchangeViewModel.SetLeUnrecorded | SCardDemoApp/APDUExchangeViewModel.cs:206-212 | the Le setter leaving P2Length alone, so readiness is unchanged by Le |
| Apdu.ApduExchangeViewModel.SetConnected | SCardDemoApp/APDUExchangeViewModel.cs:82-89 | stores the flag and logs Connected |
| Apdu.ApduExchangeViewModel.SetReaderName | SCardDemoApp/APDUExchangeViewModel.cs:107-113 | stores the name and logs ReaderName |
| Apdu.ApduExchangeViewModel.SetStatus | SCardDemoApp/APDUExchangeViewModel.cs:261-269 | stores the status text and logs Status |
| Apdu.ApduExchangeViewModel.ConnectExecute | SCardDemoApp/APDUExchangeViewModel.cs:291-304 | a card that connects gives "Card connected." and Connected true, enabling Disconnect and disabling Connect; a failure gives its message and Connected false, disabling Disconnect and Transmit; Status and Connected are logged |
| Apdu.ApduExchangeViewModel.DisconnectExecute | SCardDemoApp/APDUExchangeViewModel.cs:322-336 | Connected is false whatever the card answers, Disconnect and Transmit are disabled, and Connect is enabled exactly when a reader is named; the status is "Card disconnected." or the error message |
| Apdu.ApduExchangeViewModel.TransmitExecute | SCardDemoApp/APDUExchangeViewModel.cs:357-373 | on success the response is replaced, the status is "Transmit successful." and Status, SW1, SW2 and ResponseData are logged; on failure the response and the command are kept and the status is the message plus the reconnect advice |
| Apdu.ConnectedFresh | SCardDemoApp/APDUExchangeViewModel.cs:58-89 | a new view model that has been marked connected holds the default command and can transmit |
| Apdu.OneDigitClassScenario | SCardDemoApp/APDUExchangeViewModel.cs:120-134 | Class := "A" succeeds, stores 0x0A and shows "0A", and disables transmit because the recorded length is 1 |
| Apdu.UnparsableClassKeepsTransmitEnabled | SCardDemoApp/APDUExchangeViewModel.cs:127-133 | Class := "ZZ" fails with a FormatError, keeps 0xA0 and leaves transmit enabled, because the recorded length is 2 |
| Apdu.OddDataScenario | SCardDemoApp/APDUExchangeViewModel.cs:215-225 | Data := "3F0" succeeds with data [0x3F] shown as "3F", and disables transmit because the text length is odd |
| Apdu.P2TextLengthIgnored | SCardDemoApp/APDUExchangeViewModel.cs:189-194 | P2 := "1" succeeds and leaves transmit enabled although the text is not two characters |
| Apdu.LeTextDisablesTransmit | SCardDemoApp/APDUExchangeViewModel.cs:206-212 | Le := "255" sets P2Length to 3 and disables transmit |
| Apdu.CorrectedSettersGateOnP2 | SCardDemoApp/APDUExchangeViewModel.cs:189-212 | with the corrected setters, Le := "255" keeps transmit enabled and P2 := "1" disables it |

## Left out

- Null strings and arrays are not modelled, because Dafny sequences are never null. In the source, BufferToString(null) is "" and ParseBufferToHex(null) is the empty buffer. GetName on a type without a full name is not modelled either.
- HexHelper.IsDigit: `Char.IsDigit` also accepts non-ASCII decimal digits. The model accepts '0' to '9' only.
- ByteParsing.ParseDecimal: culture-specific signs and the trailing NUL characters that .NET number parsing also accepts are not modelled.
- Convert.ParseByteToHex: the trailing NUL characters that .NET number parsing accepts after the hex digits are not modelled; such a text is a FormatError here.
- HexHelper.IsValidHexDigitKey takes the key's code as an integer. The `VirtualKey` enumeration is not part of this model.
- `RelayCommand.RaiseCanExecuteChanged` is not modelled: the setters' calls to it only re-query the `CanExecute` predicates, which are modelled as predicates.
- PropertyChanged subscribers and the `copy != null` test are not modelled. The log records every event, whether or not a handler is attached.
- The DEBUG-only check that the property exists is left out, and so are the `Expression` overloads and `CallerMemberName`. All of them only name the property.
- Notification.NotifyPropertyChanged.RaisePropertyChanged requires a ranking that decreases along the table's edges. With a cycle the source recurses until the stack overflows, and that case is not modelled. SetProperty and Loading.BaseViewModel.SetIsLoading carry the same requirement when they raise.
- The dependency list is created lazily in the source. Here it is an empty table from the start, which behaves the same.
- Loading.CounterNeverNegative is stated only while the number of sets keeps the counter at or below int.MaxValue. Beyond that the counter wraps, as Loading.WrapAtIntMax shows.
- Apdu.ApduExchangeViewModel.SetClass: strings are sequences of Unicode scalar values here, while C# `value.Length` counts UTF-16 code units, so for a character outside the Basic Multilingual Plane the recorded ClassLength is one less than in C# and readiness can differ.
- Apdu.ApduExchangeViewModel.SetIns: the same difference for InsLength.
- Apdu.ApduExchangeViewModel.SetP1: the same difference for P1Length.
- Apdu.ApduExchangeViewModel.SetLe: the same difference for the P2Length it writes.
- Apdu.ApduExchangeViewModel.SetData: the same difference for DataLength, and the decode differs too (see Convert.ParseBufferToHex).
- Convert.ParseBufferToHex: it walks Unicode scalar values where C# walks UTF-16 code units, so a character outside the Basic Multilingual Plane counts once for the odd-tail parity and the pairing instead of twice. For "AB" followed by U+1F600, C# throws a FormatException on the surrogate pair, while the model drops the emoji as an odd tail and yields [0xAB].
- The view model's inherited IsLoading is not composed into Apdu.ApduExchangeViewModel, because that class never uses it.
- Convert.ParseGroups is the pair loop of ParseBufferToHex written as a method of its own, which ParseBufferToHex calls.
- `WinRTSCard/Smartcard.cs` is not part of this model. The remote calls, their timeouts, and the share, protocol and disposition arguments are absent; the card's answers are parameters. `ReaderList` (`ListReaders`) is left out with it.
- The XAML page, the text-box behaviours and `PropertyChangedEventArgsExtension` are user-interface glue and are not modelled.

## Findings

| source | as written | input that shows it | evidently intended | confidence | as-written member | corrected member |
|---|---|---|---|---|---|---|
| CoreUtil/HexHelper.cs:19 | the lower-case range is 'a' to 'a' | "b0" fails the test, yet ParseByteToHex reads it as 0xB0 | the range 'a' to 'f', matching the comment and the parser | high, not executed | HexHelper.LowercaseRejectedButParsed | HexHelper.IntendedTestMatchesParser |
| SCardDemoApp/APDUExchangeViewModel.cs:189-194 | the P2 setter does not record its text length | P2 := "1" keeps transmit enabled | P2Length := value.Length, as the Class, Ins and P1 setters do | medium, not executed | Apdu.P2TextLengthIgnored | Apdu.ApduExchangeViewModel.SetP2Recorded |
| SCardDemoApp/APDUExchangeViewModel.cs:208 | the Le setter writes its text length into P2Length | Le := "255" sets P2Length to 3 and disables transmit | Le leaves P2Length alone | medium, not executed | Apdu.LeTextDisablesTransmit | Apdu.ApduExchangeViewModel.SetLeUnrecorded |
