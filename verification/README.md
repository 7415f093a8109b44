# Verification of the terminal's protocol and configuration code

A Dafny model of the firmware of a power-distribution terminal, with proofs about the parts that move and interpret
bytes: the JSON reader and writer that load and save the configuration, the checksum tables, the serial framing, the
stop-and-wait link to the DSP, the file, directory and settings services of the IEC 60870-5-101/104 handler, the GOOSE
publisher and the supervision of GOOSE peers, the archive of protection reports, and the preset-then-commit of settings.

`dafny verify dfyconfig.toml` checks the whole project.

Code that changes state is modelled as classes and methods with the fields and loops of the original; each method is
proved against a specification function, and the properties are proved about those functions, over all inputs and over
whole runs. Calls into hardware, sockets, files, clocks and threads appear as inputs of the steps (what was read, which
send failed, what time it is) or as recorded outputs (frames sent, files saved).

| file | contents |
|---|---|
| `JsonString.dfy` | quoting, escapes, UTF-8 (RFC 8259 section 7, RFC 3629 section 3) |
| `JsonNumber.dfy` | integers, printed and decoded |
| `JsonValue.dfy` | values and sorted objects |
| `JsonReader.dfy` | `OurReader`: tokens, the recursive descent with its node stack, error recovery |
| `JsonWriter.dfy` | `BuiltStyledStreamWriter` |
| `JsonRoundTrip.dfy` | parsing what was printed |
| `JsonObjects.dfy` | objects of any document; printing and parsing again what was parsed |
| `JsonEscapes.dfy` | strings as units of RFC 8259, decoded and written |
| `JsonTokens.dfy` | the text of tokens and comments |
| `JsonGrammar.dfy` | the grammar of documents and what they mean |
| `JsonRecovery.dfy` | where the reader goes on after an error |
| `JsonLayout.dfy` | lines, widths and indentation of the writer |
| `Crc.dfy`, `CrcTables.dfy` | CRC-32 and CRC-16 against bit-serial division, and the tables |
| `Crc16Bursts.dfy` | what CRC-16 detects |
| `Sequences.dfy` | options, repetition, concatenation |
| `Bytes.dfy` | little-endian integers, the byte buffer, the byte sum |
| `Framing.dfy` | the serial frame protocol |
| `DspLink.dfy` | the DSP link |
| `FileTransfer.dfy` | file segments and their reassembly |
| `DirectoryPages.dfy` | paged directory replies |
| `Settings.dfy`, `SettingPages.dfy` | setting items, their message, paged replies |
| `GoosePublisher.dfy`, `GooseLink.dfy` | GOOSE |
| `ProtectionArchive.dfy` | protection report sessions |
| `PresetCommit.dfy` | preset, commit, cancel, disconnect |

## Where the code differs from what one expects

Each of these is proved, with the exact condition under which the code behaves as expected.

- The DSP receiver counts bytes and never compares block numbers for order. Any order is taken as success as soon as the
  number of blocks is right; the data come back exactly if each block carries the bytes of the block whose turn it was
  (`AnyOrder`). Swapped blocks are the simplest case (`SwappedBlocksAreTaken`).
- Wrong replies to a DSP write are not bounded by the retry limit, whatever the log text says
  (`WrongRepliesAreUnbounded`). A write goes on exactly while no row of failed sends passes the limit, counted from one
  after each wrong reply (`WaitsExactlyWithinLimit`).
- An empty serial frame is delivered with the data of the frame before it (`UnpackagePackage`, `DeliveredUnchanged`).
- A serial frame behind other bytes is reached exactly if these are an even number of bytes without a header word at an
  even distance (`ResynchronisesExactly`).
- Missing file segments are saved as zeros (`Rebuilds`).
- Range guards of the byte buffer wrap in 32 bits (`SetStaysInside`), which a file segment can make use of
  (`OverrunsExactly`).
- A directory entry of more than 223 bytes keeps the reply from ever ending (`EndsExactlyIfAllFit`, `FileReqDirectory`).
- The "more follows" bit of a settings reply is cleared too early when one frame takes all items but one (`FollowBits`);
  on the last frame it is always clear (`LastFollowBitClear`).
- Parsing settings never ends on one to four left-over bytes (`StuckOnPartialHead`, `EveryBody`).
- A publish that clears the GOOSE thread's heartbeat flag after its value has already gone through silences the heartbeat
  until the next publish, and only then; otherwise heartbeats keep coming (`SilencedExactly`).
- No reset closes a protection session of more than ten reports (`ResetCloses`).
- The preset flag starts set. A commit is saved without a preset exactly if it is the first commit, cancel or disconnect,
  the clock shows the first minute of the epoch, and no preset that does anything came before (`DefaultFlagCommits`,
  `SavesOnDefaultExactly`).
- Ill-formed UTF-8 does not survive printing and parsing unless emitUTF8 is set (`StringsSurvive`).
- Behind a value in an object a comment and any token but a brace do for a comma, and a comma may trail behind an empty
  key (`RowsStand`, exact by `DocumentsExactly`).
- A list with nothing but comments in it is refused even where comments are allowed (`CommentInEmptyList`).
- A block comment without its end is taken as one when the document ends in a slash (`BlockComment`).
- A file segment that comes after the save is answered with "no such file" (`LatePiece`).

## Model

| member | source | states |
|---|---|---|
| JsonString.Utf8ToCodepoint | libdtuconfigure/jsoncpp.cpp:4229-4278 | the cursor stays inside the text and the result below 0x200000, for any bytes |
| JsonString.ValueToQuotedStringN | libdtuconfigure/jsoncpp.cpp:4308-4386 | short cut and escaping loop give the same quoted text |
| JsonString.IsAnyCharRequiredQuoting | libdtuconfigure/jsoncpp.cpp:4216-4227 | a negative answer if and only if every character is plain printable ASCII without quote and backslash |
| JsonString.QuotingChanges | libdtuconfigure/jsoncpp.cpp:4216-4382 | a byte needs quoting if and only if the escaping loop changes it |
| JsonString.PlainTextUnchanged | libdtuconfigure/jsoncpp.cpp:4308-4316 | text that needs no quoting is left as it is by the escaping loop, so the short cut is right |
| JsonString.EscapeStep | libdtuconfigure/jsoncpp.cpp:4322-4382 | one round of the loop: short escapes, raw bytes, or \u escapes with surrogate pairs |
| JsonString.QuoteIsOneToken | libdtuconfigure/jsoncpp.cpp:1638-1648 | whatever text follows, the reader's string scan stops exactly at the closing quote of the quoted form |
| JsonString.QuoteDecodesToRepair | libdtuconfigure/jsoncpp.cpp:1891-1993 | the quoted form of any bytes decodes without error, to the bytes with every ill-formed unit replaced |
| JsonString.EmittedQuoteDecodes | libdtuconfigure/jsoncpp.cpp:1891-1942 | with emitUTF8 every byte string comes back unchanged |
| JsonString.RepairIsIdentityOnUtf8 | libdtuconfigure/jsoncpp.cpp:4229-4278 | the replacement changes nothing exactly for well-formed UTF-8 of RFC 3629 |
| JsonString.QuoteRoundTrip | libdtuconfigure/jsoncpp.cpp:1891-1993 | decoding the quoted form gives the bytes back if and only if emitUTF8 is set or they are well-formed UTF-8 |
| JsonString.SurrogatePairDecodes | libdtuconfigure/jsoncpp.cpp:1944-1967 | the two \u escapes written for a code point above U+FFFF are read as that code point |
| JsonString.DecodeUnicodeEscapeSequence | libdtuconfigure/jsoncpp.cpp:1969-1993 | the four-digit loop agrees with the positional reading, in all error cases too |
| JsonString.DecodeUnicodeCodePoint | libdtuconfigure/jsoncpp.cpp:1944-1967 | surrogate pairs are joined, and each missing or wrong second half is reported |
| JsonString.DecodeStringLoop | libdtuconfigure/jsoncpp.cpp:1891-1942 | the loop computes the specified decoding of the characters between the quotes |
| JsonEscapes.UnitsDecode | libdtuconfigure/jsoncpp.cpp:1891-1967 | any sequence of plain characters, the eight short escapes and codes or pairs of codes in hexadecimal digits of either case decodes to their meanings, in the table of RFC 8259 section 7 |
| JsonEscapes.DecodedUnits | libdtuconfigure/jsoncpp.cpp:1891-1993 | every text is such a sequence up to its end, to a bare quote, or to the fault that is reported, with each message exactly for its fault |
| JsonEscapes.StringIsRead | libdtuconfigure/jsoncpp.cpp:1638-1660 | such a sequence in quotes is one token whatever follows, and its value is the meaning |
| JsonEscapes.WrittenUnits | libdtuconfigure/jsoncpp.cpp:4317-4384 | what the writer puts between quotes: plain characters, ASCII only unless emitUTF8 is set, a short escape for each character that has one but the slash, otherwise codes in lower-case digits, paired for surrogates |
| JsonEscapes.Utf8Table | libdtuconfigure/jsoncpp.cpp:115-147 | the bytes of every code point by the table of RFC 3629 section 3 |
| JsonNumber.DecodeNumberLoop | libdtuconfigure/jsoncpp.cpp:1778-1856 | the threshold arithmetic yields the exact integer or leaves the text to the floating-point decoder, exactly at the bounds of int64 and uint64, and no 64-bit intermediate overflows |
| JsonNumber.UIntToString | libdtuconfigure/jsoncpp.cpp:167-173 | the digits end up in the buffer before the terminating zero, at most 21 places are touched and nothing else |
| JsonNumber.ValueToString | libdtuconfigure/jsoncpp.cpp:4132-4146 | every int64, the minimum included, prints as its decimal text |
| JsonNumber.ValueToStringUnsigned | libdtuconfigure/jsoncpp.cpp:4148-4154 | every uint64 prints as its decimal text |
| JsonNumber.AtMostTwentyDigits | libdtuconfigure/jsoncpp.cpp:153-160 | a uint64 has at most twenty digits, so the buffer suffices |
| JsonNumber.MagnitudeOfText | libdtuconfigure/jsoncpp.cpp:167-173 | the digits printed for a number denote that number |
| JsonNumber.NumberRoundTrip | libdtuconfigure/jsoncpp.cpp:1778-1856 | decoding what is printed gives the integer back if and only if it lies in [-2^63, 2^64-1] |
| JsonNumber.MagnitudeJoins | libdtuconfigure/jsoncpp.cpp:1827-1848 | digits before others count ten to the power of how many follow |
| JsonNumber.TextOfMagnitude | libdtuconfigure/jsoncpp.cpp:167-173 | digits without a needless leading zero are exactly what is printed for the number they denote |
| JsonNumber.PrintsShortest | libdtuconfigure/jsoncpp.cpp:4132-4154 | what is printed for an integer is the one text that denotes it without a needless zero or minus sign |
| JsonNumber.DecodesExactly | libdtuconfigure/jsoncpp.cpp:1778-1856 | a text decodes to an integer if and only if it denotes it, with or without a minus sign, and it lies in [-9223372036854775808, 18446744073709551615] |
| JsonValue.KeyLessIsStrict | libdtuconfigure/jsoncpp.cpp:2687-2700 | a key is not before itself, and of two keys not both are before the other |
| JsonValue.KeyLessTotal | libdtuconfigure/jsoncpp.cpp:2687-2700 | of two different keys one is before the other |
| JsonValue.KeyLessTransitive | libdtuconfigure/jsoncpp.cpp:2687-2700 | the order of keys is transitive |
| JsonValue.AssignAppends | libdtuconfigure/jsoncpp.cpp:3448-3464 | storing a key after all others appends it |
| JsonValue.KeyLessByBytes | libdtuconfigure/jsoncpp.cpp:2687-2700 | one key is before another if and only if up to some place they agree and there it ends or has the smaller byte |
| JsonValue.FindAssigned | libdtuconfigure/jsoncpp.cpp:3448-3464 | after storing under a name that name finds the value and every other name what it found before; the names are the old ones and this one |
| JsonValue.AssignKeepsSorted | libdtuconfigure/jsoncpp.cpp:3448-3464 | storing keeps the keys in order, wherever the new one belongs |
| JsonValue.SortedIsUnique | libdtuconfigure/jsoncpp.cpp:3448-3464 | sorted members that find the same under every name are the same, so the order in which keys came leaves no trace |
| JsonReader.ReadToken | libdtuconfigure/jsoncpp.cpp:1387-1493 | every token consumes input or reports the end of the document, and stays inside it |
| JsonReader.SkipComments | libdtuconfigure/jsoncpp.cpp:1668-1673 | skipping comments ends, at a token that is none |
| JsonReader.Recover | libdtuconfigure/jsoncpp.cpp:2004-2015 | error recovery ends with the cursor inside the document |
| JsonReader.ReadValue | libdtuconfigure/jsoncpp.cpp:1285-1375 | reading stops on every text: with the cursor inside the document and failure exactly when an error was added, or by the stack-limit or key-length exception |
| JsonReader.ReadMembers | libdtuconfigure/jsoncpp.cpp:1662-1724 | the same for the rest of an object; what it then holds is told by JsonObjects.ObjectHoldsLast and JsonGrammar.DocumentsExactly |
| JsonReader.ReadItems | libdtuconfigure/jsoncpp.cpp:1726-1766 | the same for the rest of an array |
| JsonReader.Parse | libdtuconfigure/jsoncpp.cpp:1241-1283 | every document is parsed to an end: a verdict that agrees with the error list, or one of the two exceptions |
| JsonReader.OurReader.GetNextChar | libdtuconfigure/jsoncpp.cpp:2025-2029 | the next character, or zero at the end without moving |
| JsonReader.OurReader.SkipSpacesStep | libdtuconfigure/jsoncpp.cpp:1495-1503 | the cursor moves to the next character that is no white space |
| JsonReader.OurReader.Match | libdtuconfigure/jsoncpp.cpp:1505-1514 | the backward comparison finds the pattern exactly when it stands at the cursor |
| JsonReader.OurReader.ReadCStyleComment | libdtuconfigure/jsoncpp.cpp:1582-1594 | verdict and end of a block comment, also at the end of the document |
| JsonReader.OurReader.ReadCppStyleComment | libdtuconfigure/jsoncpp.cpp:1596-1610 | end of a line comment for all three line endings |
| JsonReader.OurReader.ReadComment | libdtuconfigure/jsoncpp.cpp:1516-1548 | the verdict and cursor of either comment |
| JsonReader.OurReader.ReadNumber | libdtuconfigure/jsoncpp.cpp:1612-1636 | digits, fraction and exponent are taken as far as they go, infinities refused |
| JsonReader.OurReader.ReadStringUpTo | libdtuconfigure/jsoncpp.cpp:1638-1660 | the string ends at the first quote that no backslash escapes |
| JsonReader.OurReader.ReadTokenStep | libdtuconfigure/jsoncpp.cpp:1387-1493 | the token read, the cursor after it, and false exactly for an error token |
| JsonReader.OurReader.SkipCommentTokens | libdtuconfigure/jsoncpp.cpp:1377-1385 | the first token that counts under the comment feature |
| JsonReader.OurReader.RecoverFromError | libdtuconfigure/jsoncpp.cpp:2004-2015 | recovery moves the cursor past the token sought and leaves the error list as it was |
| JsonReader.OurReader.AddErrorAndRecover | libdtuconfigure/jsoncpp.cpp:2017-2021 | exactly one error is added |
| JsonReader.OurReader.DecodeNumberToken | libdtuconfigure/jsoncpp.cpp:1768-1856 | the number replaces the value of the top node only, tagged signed when it fits int64 |
| JsonReader.OurReader.DecodeKey | libdtuconfigure/jsoncpp.cpp:1679-1689 | the key of a member from a string or, where allowed, from a number, or the error met in decoding it |
| JsonReader.OurReader.ReadValueStep | libdtuconfigure/jsoncpp.cpp:1285-1375 | a reading that does not throw leaves the node stack as it found it, but for the value of its own node |
| JsonReader.OurReader.ReadObject | libdtuconfigure/jsoncpp.cpp:1662-1724 | the loop of an object agrees with the reading that JsonObjects.ObjectHoldsLast and JsonGrammar.DocumentsExactly speak of; the nodes below are untouched |
| JsonReader.OurReader.ReadArray | libdtuconfigure/jsoncpp.cpp:1726-1766 | the loop of an array, likewise |
| JsonReader.OurReader.ParseDocument | libdtuconfigure/jsoncpp.cpp:1241-1283 | the document's value, verdict and errors, with the node stack empty in the end |
| JsonObjects.ObjectHoldsLast | libdtuconfigure/jsoncpp.cpp:1662-1724 | an object read from any document holds, for each key the document lists in whatever order, the value listed last, and no other key, sorted |
| JsonObjects.ListedOnce | libdtuconfigure/jsoncpp.cpp:1695-1699 | with rejectDupKeys no key is listed twice |
| JsonObjects.ReadsFit | libdtuconfigure/jsoncpp.cpp:1285-1375 | every value read without error has sorted keys below 2^30, integers tagged by range, and nesting within the stack limit |
| JsonTokens.TokenLooks | libdtuconfigure/jsoncpp.cpp:1387-1493 | the text of every token is that of its kind, and only white space was skipped before it |
| JsonTokens.WordTaken | libdtuconfigure/jsoncpp.cpp:1387-1493 | each bracket, separator and word, and NaN and the infinities where allowed, is taken as its token whatever follows |
| JsonTokens.NumberTaken | libdtuconfigure/jsoncpp.cpp:1612-1636 | digits, fraction and exponent are each taken as far as they go |
| JsonTokens.BlockComment | libdtuconfigure/jsoncpp.cpp:1582-1594 | a block comment ends behind its first close; without one it runs to the end of the document and counts if that is a slash |
| JsonTokens.LineComment | libdtuconfigure/jsoncpp.cpp:1596-1610 | a line comment ends behind the first line feed, carriage return or pair of both, or with the document |
| JsonGrammar.DocumentsExactly | libdtuconfigure/jsoncpp.cpp:1241-1766 | a document is parsed without error as a value if and only if it is, by a grammar over its tokens, a tree that means this value, with nothing behind it where failIfExtra is set and a list or record where strictRoot is |
| JsonGrammar.GrammaticalIsRead | libdtuconfigure/jsoncpp.cpp:1285-1766 | whatever stands at a place by the grammar, within the stack limit, is read from there up to its end as what it means |
| JsonGrammar.ReadIsGrammatical | libdtuconfigure/jsoncpp.cpp:1285-1766 | whatever is read without error stands there by the grammar, with trailing commas, dropped placeholders, comments, numeric and repeated keys just where the features allow them |
| JsonGrammar.LeafReads | libdtuconfigure/jsoncpp.cpp:1285-1360 | a token is read as a value if and only if its text means that value: the integer it denotes if that fits 64 bits, a real otherwise, a string's units |
| JsonGrammar.KeyReads | libdtuconfigure/jsoncpp.cpp:1679-1692 | a token is taken as a key if and only if it is a string or an allowed number that means it |
| JsonGrammar.CommentBeforeValue | libdtuconfigure/jsoncpp.cpp:1377-1385 | a comment before a value is passed over with allowComments and an error without |
| JsonGrammar.CommentInEmptyList | libdtuconfigure/jsoncpp.cpp:1732-1746 | a list with nothing but comments in it is refused, unless placeholders may be dropped |
| JsonRecovery.RecoverStops | libdtuconfigure/jsoncpp.cpp:2004-2015 | recovery goes on behind the first token of the kind sought or at the end of the stream, whichever is first |
| JsonRecovery.RefusedIsSkipped | libdtuconfigure/jsoncpp.cpp:1662-1766 | a refused object is left behind a closing brace, a refused array behind a closing bracket, or either at the end of the stream |
| JsonRecovery.RootErrors | libdtuconfigure/jsoncpp.cpp:1257-1282 | parse adds to the errors of the value one for anything behind it with failIfExtra, else one for a root that is no list or record with strictRoot |
| JsonWriter.BuiltStyledStreamWriter.PushValue | libdtuconfigure/jsoncpp.cpp:5118-5123 | text goes to the collected child values or to the output, never to both |
| JsonWriter.BuiltStyledStreamWriter.WriteWithIndent | libdtuconfigure/jsoncpp.cpp:5137-5142 | a new line and the indentation stand before the text unless already written |
| JsonWriter.BuiltStyledStreamWriter.Unindent | libdtuconfigure/jsoncpp.cpp:5146-5149 | takes back exactly what one indent added |
| JsonWriter.BuiltStyledStreamWriter.WriteValue | libdtuconfigure/jsoncpp.cpp:4978-5039 | the output grows by the specified text of the value, the indentation is restored |
| JsonWriter.BuiltStyledStreamWriter.WriteArrayValue | libdtuconfigure/jsoncpp.cpp:5041-5089 | arrays on one line or one item a line, from cached child texts or not, give the specified text |
| JsonWriter.BuiltStyledStreamWriter.IsMultilineArray | libdtuconfigure/jsoncpp.cpp:5091-5116 | the answer is the width test with its 32-bit sums, and the cached texts are those of the items |
| JsonWriter.BuiltStyledStreamWriter.Write | libdtuconfigure/jsoncpp.cpp:4963-4976 | the whole document's text is appended |
| JsonRoundTrip.ReadsValue | libdtuconfigure/jsoncpp.cpp:4978-5039 | at any place in any document the text of a value is read as that value up to its end, or throws when nested too deep |
| JsonRoundTrip.ReadsItems | libdtuconfigure/jsoncpp.cpp:5047-5072 | the same for the lines of an array |
| JsonRoundTrip.ReadsRow | libdtuconfigure/jsoncpp.cpp:5073-5087 | the same for an array on one line |
| JsonRoundTrip.ReadsMembers | libdtuconfigure/jsoncpp.cpp:5011-5037 | the same for the members of an object |
| JsonRoundTrip.StringsSurvive | libdtuconfigure/jsoncpp.cpp:4308-4386 | printing and parsing changes no string of a value if and only if emitUTF8 is set or all are well-formed UTF-8 |
| JsonRoundTrip.ParsesWhatIsPrinted | libdtuconfigure/jsoncpp.cpp:4978-5089 | parsing the printed text gives the value back up to the int/uint tag, with every string as quoting leaves it, no error and nothing left over, exactly when the nesting is within the stack limit; beyond it the reader throws; the strings are unchanged if and only if emitUTF8 is set or all are well-formed UTF-8 |
| JsonRoundTrip.PrintAndParse | libdtuconfigure/jsoncpp.cpp:1241-1283 | the writer object followed by the reader object return the value, with the same condition on its strings |
| JsonObjects.ParsedComesBack | libdtuconfigure/jsoncpp.cpp:4978-5089 | whatever document was parsed, printing its value and parsing the text gives the same value without error, exactly when emitUTF8 is set or its strings are well-formed UTF-8 |
| JsonLayout.OneLineExactly | libdtuconfigure/jsoncpp.cpp:5091-5116 | an array stays on one line if and only if no comments are written, no item opens a bracket, it has fewer than 25 items and is less than 74 characters wide, counted in 32 bits |
| JsonLayout.OneLineIsWide | libdtuconfigure/jsoncpp.cpp:5073-5087 | the line is exactly as wide as was counted |
| JsonLayout.ValueLaid | libdtuconfigure/jsoncpp.cpp:4978-5072 | the text of any value has the counted number of line breaks, and every one is followed by at least the indentation it was given |
| Crc.TableEntries | libdtubase/dtucommon.cpp:631-697 | all 256 entries of the three tables are eight bit-serial steps |
| Crc.TableStep32 | libdtubase/dtucommon.cpp:699-702 | one table step brings down a whole byte of the division by 0x04C11DB7 |
| Crc.TableStep16 | libdtubase/dtucommon.cpp:765-770 | one table step is eight steps of the reflected MODBUS division |
| Crc.Crc32 | libdtubase/dtucommon.cpp:626-708 | the loop with its four flushing steps is the remainder of bit-serial polynomial division |
| Crc.Crc16 | libdtubase/dtucommon.cpp:711-773 | the loop returns the bit-serial MODBUS code with its bytes swapped |
| Crc.Crc32Linear | libdtubase/dtucommon.cpp:626-708 | the code of an exclusive or of equally long messages is the exclusive or of their codes |
| Crc.Crc32DetectsBursts | libdtubase/dtucommon.cpp:626-708 | different messages that differ only within 32 consecutive bits, wherever these start, never share a code |
| Crc.Crc32Residue | libdtubase/dtucommon.cpp:626-708 | the code of a message followed by four bytes is zero if and only if they are the code of the message |
| Crc16Bursts.Crc16Linear | libdtubase/dtucommon.cpp:711-773 | the code of the exclusive or of three equally long messages is the exclusive or of their codes |
| Crc16Bursts.BytesAreBits | libdtubase/dtucommon.cpp:765-770 | the register takes the bits of the message one by one, least significant first |
| Crc16Bursts.Crc16DetectsBursts | libdtubase/dtucommon.cpp:711-773 | different messages that differ only within 16 consecutive bits, wherever these start, never share a code |
| Crc16Bursts.Crc16Residue | libdtubase/dtucommon.cpp:711-773 | two bytes behind a message leave nothing if and only if they are the code returned for it, high byte first |
| Bytes.GetMod | libdtubase/dtucommon.cpp:612-623 | the loop computes the sum that Bytes.SumOfBytes identifies |
| Bytes.SumOfBytes | libdtubase/dtucommon.cpp:617-622 | it is the sum of all bytes modulo 256 |
| Bytes.SumJoin | libdtubase/dtucommon.cpp:617-622 | the sum of two buffers one behind the other is the sum of their sums |
| Bytes.SumOfOne | libdtubase/dtucommon.cpp:617-622 | the sum of one byte is that byte |
| Bytes.OneByteShows | libdtubase/dtucommon.cpp:612-623 | changing any single byte changes the sum |
| Bytes.Set | libdtubase/dtubuffer.cpp:118-130 | writing succeeds if and only if the range lies inside, and never changes the length |
| Bytes.SetStaysInside | libdtubase/dtubuffer.cpp:118-130 | the guard lets a write past the end if and only if position plus length wraps 32 bits to a small number |
| Bytes.GetAfterSet | libdtubase/dtubuffer.cpp:118-141 | what was written is read back, and every other byte is as before |
| Bytes.BeyondTheEnd | libdtubase/dtubuffer.cpp:132-201 | a range that ends beyond the buffer is refused, unless its end wraps to a place inside |
| Bytes.GetAndRemove | libdtubase/dtubuffer.cpp:132-201 | get reads the part between two positions, remove leaves the parts around it |
| Bytes.Buffer.Read | libdtubase/dtubuffer.cpp:132-141 | the bytes, an exception for an empty or refused range, or an access past the end |
| Bytes.Buffer.Write | libdtubase/dtubuffer.cpp:118-130 | the bytes replace what stood there, or nothing changes |
| Bytes.Buffer.Append | libdtubase/dtubuffer.cpp:160-165 | the bytes follow the contents |
| Bytes.Buffer.Erase | libdtubase/dtubuffer.cpp:189-201 | the range is cut out, or nothing changes |
| Framing.DtuProtocol.PackageStep | libdtucomm/dtuprotocol.cpp:76-89 | sixteen header bytes in little-endian order, then the data |
| Framing.DtuProtocol.UnpackageStep | libdtucomm/dtuprotocol.cpp:48-74 | all header fields, and the old data when the new length is zero |
| Framing.UnpackagePackage | libdtucomm/dtuprotocol.cpp:48-89 | a packed frame is extracted unchanged if and only if it has data or there was none before |
| Framing.DtuProtocol.CheckHeaderStep | libdtucomm/dtuprotocol.cpp:120-141 | the buffer is cut before the first header word in its first half, or by half |
| Framing.DtuProtocol.FindFrameStep | libdtucomm/dtuprotocol.cpp:91-118 | a whole frame at the header word, or header fields of an incomplete one with its data kept |
| Framing.DtuProtocol.TryReadStep | libdtucomm/dtuprotocol.cpp:157-176 | one round: frame, nothing, or lost line |
| Framing.DtuProtocol.ReadFromIoStep | libdtucomm/dtuprotocol.cpp:143-185 | at most ten rounds; the first frame, a timeout, or a disconnect |
| Framing.DisconnectsExactly | libdtucomm/dtuprotocol.cpp:157-176 | the line is given up if and only if the read failed and nothing at all is buffered |
| Framing.CallIsSession | libdtucomm/dtuprotocol.cpp:143-185 | a call delivers the first frame that a session over the same reads delivers, with the same buffer and data left, or none if there is none |
| Framing.HeaderWords | libdtucomm/dtuprotocol.cpp:120-141 | the header words are AA55 and BB66, low byte first |
| Framing.HeaderFields | libdtucomm/dtuprotocol.cpp:76-89 | the place of every header field on the line |
| Framing.FindFrameInGarbage | libdtucomm/dtuprotocol.cpp:91-141 | a call on garbage before a frame finds it or drops garbage only, and halves the buffer |
| Framing.Resynchronises | libdtucomm/dtuprotocol.cpp:91-141 | n calls find the first whole frame and lose none of its bytes once 2^n times what follows the garbage outweighs the buffer |
| Framing.AlwaysResynchronises | libdtucomm/dtuprotocol.cpp:91-141 | after any garbage of whole words without a header word, some number of calls finds the frame |
| Framing.ResynchronisesExactly | libdtucomm/dtuprotocol.cpp:91-141 | a frame behind other bytes is reached if and only if these are whole words, none of them a header word |
| Framing.TryOnStream | libdtucomm/dtuprotocol.cpp:157-176 | on a frame boundary the next frame is taken exactly when all of it has arrived |
| Framing.StreamInOrder | libdtucomm/dtuprotocol.cpp:157-176 | however a stream is cut into chunks, the frames come out in order and bytes received are bytes of frames taken plus bytes still buffered |
| Framing.Drains | libdtucomm/dtuprotocol.cpp:157-176 | once everything arrived, further tries deliver every frame |
| Framing.FindOnStream | libdtucomm/dtuprotocol.cpp:91-141 | on any part of a stream with garbage before its frames a call drops garbage only, and finds the first frame exactly when it is complete and the garbage is less than half the buffer |
| Framing.NoisyStreamInOrder | libdtucomm/dtuprotocol.cpp:143-185 | garbage and then frames, cut into any chunks: no byte of a frame is ever dropped, the frames come out in order, and what came in is garbage, the frames taken and what is still buffered |
| Framing.NoisyDrains | libdtucomm/dtuprotocol.cpp:143-185 | once everything arrived, every frame is taken within logarithmically many tries for the garbage and one for each frame |
| Framing.DeliveredUnchanged | libdtucomm/dtuprotocol.cpp:68-73 | the frames are delivered unchanged if and only if none is empty after one with data |
| DspLink.BlockOf | libdtudsp/dspcomm.cpp:567-582 | only the last block has number 0xFFFC, all others their index, which stays a legal number |
| DspLink.MakeBlock | libdtudsp/dspcomm.cpp:564-583 | the arithmetic of the loop cuts block j of the data |
| DspLink.SendBlock | libdtudsp/dspcomm.cpp:585-599 | a block is tried up to three times, until accepted, and every copy its tries put on the link is recorded |
| DspLink.SendNext | libdtudsp/dspcomm.cpp:573-607 | the body of the loop adds the copies of one block to what was sent before |
| DspLink.DspWriteData | libdtudsp/dspcomm.cpp:551-609 | an unsupported command is refused; otherwise success if and only if every block was accepted within three tries, failure at the first block given up, and the blocks put on the link in order |
| DspLink.WriteCommands | libdtudsp/dspcomm.cpp:551-563 | the commands that are written |
| DspLink.BlocksCut | libdtudsp/dspcomm.cpp:564-583 | joined, the blocks are the data: pieces of 131072 bytes and a last one of at least one byte, numbered in order, the last 0xFFFC |
| DspLink.AcceptedWithinThree | libdtudsp/dspcomm.cpp:585-599 | a block is accepted exactly by a first, second or third try that succeeds after failures only |
| DspLink.SentExactly | libdtudsp/dspcomm.cpp:573-607 | how often each block goes out: the copies of its tries if all blocks before it were accepted, else never |
| DspLink.DspComm.ReceiveRound | libdtudsp/dspcomm.cpp:398-481 | the round of the loop agrees with the reading that DspLink.SuccessProves, DspLink.StoresBehindCount and DspLink.BrokenReadFails speak of |
| DspLink.SuccessProves | libdtudsp/dspcomm.cpp:370-490 | success of an attempt proves that the command went out, that every frame up to one numbered 0xFFFC could be read, that this one passed the check and the bytes counted reach its total, that at most three frames were bad and each got its NACK |
| DspLink.BrokenReadFails | libdtudsp/dspcomm.cpp:398-401 | a read broken off before a final frame, or whose command did not go out, never succeeds |
| DspLink.StoresBehindCount | libdtudsp/dspcomm.cpp:446-471 | a new frame's data, or the data before it when it is empty, go behind what was counted, and it fails exactly if they do not fit |
| DspLink.RepeatStoresNothing | libdtudsp/dspcomm.cpp:435-447 | a frame with the number of the last one stores nothing |
| DspLink.FrameCheck | libdtudsp/dspcomm.cpp:492-520 | the check of a frame by its length, total and number |
| DspLink.DecidedStays | libdtudsp/dspcomm.cpp:398-481 | a decided read looks at no further event |
| DspLink.DspComm.TryExecuteRead | libdtudsp/dspcomm.cpp:370-490 | outcome and buffer depend on this attempt's events alone, whatever the buffer held; what success proves is told by DspLink.SuccessProves |
| DspLink.DspComm.Attempts | libdtudsp/dspcomm.cpp:682-698 | success if and only if one of three attempts succeeds, and then the buffer is that attempt's |
| DspLink.DspComm.DspReadData | libdtudsp/dspcomm.cpp:655-709 | an unsupported command changes nothing; otherwise the buffer is that of the last attempt, with the connection state put into the result of a self check, or the exception of a result too short for it |
| DspLink.ReadCommands | libdtudsp/dspcomm.cpp:655-675 | the commands that are read |
| DspLink.CheckedBytes | libdtudsp/dspcomm.cpp:699-707 | only a successful self check (0xAAF4) is changed, only in bytes 22 and 23, and it throws exactly below 24 bytes |
| DspLink.StatusBits | libdtudsp/dspcomm.cpp:699-707 | bit 10 is set if either status has it, all other bits are the connection state's |
| DspLink.StoreIntact | libdtudsp/dspcomm.cpp:435-447 | a repeat changes nothing, the next block is stored in place, a skip is remembered in the length count |
| DspLink.AnyOrder | libdtudsp/dspcomm.cpp:370-490 | blocks in any order with repeats and bad frames, then the final block: success if and only if as many came, repeats in a row apart, as the data have, at most three frames were bad and all were NACKed; the buffer then holds them as they came, and is the data if and only if each carries the bytes of the block whose turn it was |
| DspLink.Reassembly | libdtudsp/dspcomm.cpp:370-490 | blocks in order with repeats, skips and bad frames, then the final block: success if and only if none was skipped, at most three frames were bad and all were NACKed, and then the buffer is the data |
| DspLink.SentIsReceived | libdtudsp/dspcomm.cpp:564-602 | whatever rounds a successful write needed, a receiver of the same protocol rebuilds the data from all copies put on the link, inside a try and by repeated tries |
| DspLink.SwappedBlocksAreTaken | libdtudsp/dspcomm.cpp:446-478 | the first two of three blocks swapped are accepted as success, with the data back if and only if both are equal |
| DspLink.TryExecuteWrite | libdtudsp/dspcomm.cpp:322-368 | the loop with its counter, on any finite run of rounds, and how many copies of the frame it puts on the link |
| DspLink.FirstConclusiveDecides | libdtudsp/dspcomm.cpp:322-368 | every decided write: the first round that is neither a failed send nor a wrong reply decides it, with success if and only if it is a reply that is taken and no row of failed sends passed the limit before; unread replies and NACKs fail |
| DspLink.CopiesAreSends | libdtudsp/dspcomm.cpp:322-368 | a copy goes out for each round reached whose send does not fail |
| DspLink.TakenReplies | libdtudsp/dspprotocol.cpp:69-92 | the replies taken and those that end a write, by their codes |
| DspLink.SuccessLeavesCopy | libdtudsp/dspcomm.cpp:322-368 | a try that succeeds has put its frame on the link at least once |
| DspLink.WrongRepliesAreUnbounded | libdtudsp/dspcomm.cpp:338-366 | any number of wrong replies only sets the counter to one, unless the limit is zero |
| DspLink.GoesOnWithinLimit | libdtudsp/dspcomm.cpp:322-368 | any mix of failed sends and wrong replies: the write goes on with the counter of the last row of failed sends if no row passes the limit, and fails otherwise |
| DspLink.WaitsExactlyWithinLimit | libdtudsp/dspcomm.cpp:322-368 | after such a mix the write is still waiting if and only if no row of failed sends took the counter past the limit |
| FileTransfer.Segment | libdturuleskit/dtuhalasdu.cpp:2415-2457 | every segment's payload is at most 235 bytes |
| FileTransfer.CreateReadfileConAck | libdturuleskit/dtuhalasdu.cpp:2415-2457 | from any offset: the header, up to 220 bytes of data and their sum, and the offset behind them; none at the end |
| FileTransfer.SegmentStandsAt | libdturuleskit/dtuhalasdu.cpp:2415-2457 | at a multiple of 220 the payload is the segment of that number |
| FileTransfer.SegmentFields | libdturuleskit/dtuhalasdu.cpp:2415-2457 | file id, offset, follow flag, data and byte sum stand at their places |
| FileTransfer.FileReqContent | libdturuleskit/dtuhalasdu.cpp:1883-1900 | the loop ends with exactly the file's segments, none for an empty file |
| FileTransfer.ParseWritefileData | libdturuleskit/dtuhalasdu.cpp:2124-2141 | parses exactly payloads of more than fourteen bytes, and reads past the end exactly at thirteen |
| FileTransfer.ParseSegment | libdturuleskit/dtuhalasdu.cpp:2124-2141 | a segment without its first byte parses to its file, offset, end flag, data and checksum |
| FileTransfer.RuleHandler.WriteFileActive | libdturuleskit/dturulehandle.cpp:330-343 | a zeroed buffer of the announced size replaces any earlier one |
| FileTransfer.RuleHandler.WriteFileContentStep | libdturuleskit/dturulehandle.cpp:345-473 | codes 4, 2 and 3 leave the store unchanged; the segment without follower saves the buffer and removes the entry |
| FileTransfer.DamagedSegment | libdturuleskit/dturulehandle.cpp:359-363 | a segment of a file being received with any one data byte changed is refused with code 2 and leaves the store unchanged |
| FileTransfer.RuleHandler.FileRecvContentStep | libdturuleskit/dtuhalasdu.cpp:1930-1978 | a reply goes out on every error and at the end of a file, none in between |
| FileTransfer.ReceivePiece | libdturuleskit/dturulehandle.cpp:345-376 | a segment fills exactly its part of the buffer, the last one saves it once |
| FileTransfer.ReceiveNoise | libdturuleskit/dturulehandle.cpp:353-368 | an activation of another file, a wrong checksum, an offset out of range, a payload that does not parse or another file's leaves the file's buffer unchanged, unless it reaches past a buffer by a wrapped offset or a missing checksum |
| FileTransfer.OverrunsExactly | libdturuleskit/dtuhalasdu.cpp:2124-2141 | the handler reaches past a buffer if and only if the payload has exactly thirteen bytes, or is accepted for a file whose size the wrapped end of its data passes but the end does not |
| FileTransfer.MaskedIsFile | libdturuleskit/dturulehandle.cpp:330-343 | what would be saved is the file if and only if every missing segment holds only zeros |
| FileTransfer.LatePiece | libdturuleskit/dturulehandle.cpp:345-353 | a segment of a file that is not being received is answered with code 4 and changes nothing |
| FileTransfer.RunAfterSave | libdturuleskit/dturulehandle.cpp:345-376 | whatever comes after the save, but an activation, neither brings the file back nor saves it again |
| FileTransfer.Rebuilds | libdturuleskit/dturulehandle.cpp:330-376 | segments in any order and repetition among activations and payloads of other files, the last segment, then anything but a new activation: exactly one save, of exactly the file if all segments came, else with the missing parts zero, unless other traffic reaches past a buffer, which only wrapped or cut-off payloads do |
| DirectoryPages.CreateDirectoryAck | libdturuleskit/dtuhalasdu.cpp:2275-2413 | as many entries as fit from the index on, the flags patched, the index behind them when more follow |
| DirectoryPages.FileReqDirectory | libdturuleskit/dtuhalasdu.cpp:1827-1839 | the loop ends if and only if every entry fits; the frames are those before the first entry that does not, from where the same empty frame repeats |
| DirectoryPages.PageProgress | libdturuleskit/dtuhalasdu.cpp:2384-2410 | a frame takes no entry if and only if the next one has more than 223 bytes |
| DirectoryPages.EndsExactlyIfAllFit | libdturuleskit/dtuhalasdu.cpp:1827-1839 | the reply ends after some number of frames if and only if every entry fits an empty frame |
| DirectoryPages.MakeFileinfoToBuffer | libdturuleskit/dturulehandle.cpp:520-538 | the entry's bytes, with the name cut to its length's low byte |
| DirectoryPages.ReadFrame | libdturuleskit/dtuhalasdu.cpp:2275-2413 | a frame has at most 235 bytes, says rightly whether more follow and how many entries it holds |
| DirectoryPages.FramesNameDirectory | libdturuleskit/dtuhalasdu.cpp:2275-2300 | every frame of a reply carries the operation, success and the directory id in bytes 6 to 9 |
| DirectoryPages.DirectoryRoundTrip | libdturuleskit/dtuhalasdu.cpp:2275-2413 | a reader of the reply gets the whole directory in order, with names intact if and only if none has 256 bytes or more |
| Settings.SetBit | libdtubase/dtucommon.cpp:492-498 | sets or clears exactly the bit asked for, and none for an index outside 1 to 8 |
| Settings.ArrayToBitset | libdtubase/dtucommon.h:95-111 | the eight flags of a byte, lowest first |
| Settings.BitsetToArray | libdtubase/dtucommon.h:77-94 | the byte of eight flags, whatever it held before |
| Settings.BitsRoundTrip | libdtubase/dtucommon.h:77-111 | a byte survives the way into flags and back |
| Settings.OfBitsRoundTrip | libdtubase/dtucommon.h:77-111 | flags survive the way into a byte and back |
| Settings.SettingItem.MakeBuffStep | libdtubase/dtustructs.cpp:83-99 | head and value, or the exception of a value longer than the length field |
| Settings.MakeBuffOfNewItem | libdtubase/dtustructs.cpp:17-20 | an item keeps its value if and only if that has fewer than 256 bytes |
| Settings.MakeBuffFits | libdtubase/dtustructs.cpp:83-99 | an item whose value is as long as its length field says becomes five head bytes and the value |
| Settings.SettingItem.ParseBuff | libdtubase/dtustructs.cpp:60-81 | no move below five bytes, else past head and length, with the value only if it is all there |
| Settings.SettingInfo.ParseSettings | libdtubase/dtustructs.cpp:152-159 | the items read are appended in order, and the loop ends exactly when nothing is left |
| Settings.SettingInfo.Parse | libdtubase/dtustructs.cpp:135-160 | group, tag flags and all items are appended, unless the loop no longer moves |
| Settings.ParseAfterItems | libdtubase/dtustructs.cpp:152-159 | items made one behind another are read back one by one, then what follows them |
| Settings.MessageRoundTrip | libdtubase/dtustructs.cpp:135-160 | what make_buff makes of the items, behind a group and a tag, gives group, every tag bit and every item back in order |
| Settings.StuckOnPartialHead | libdtubase/dtustructs.cpp:60-63 | one to four bytes behind the items stop the loop from ending |
| Settings.TruncatedItemIsEmpty | libdtubase/dtustructs.cpp:73-80 | an item cut short is read with an empty value, and then the loop ends |
| Settings.EveryBody | libdtubase/dtustructs.cpp:135-160 | every body is read as items and a rest, and parsing ends if and only if the rest is not one to four bytes |
| SettingPages.ReadParam | libdturuleskit/dtuhalasdu.cpp:141-204 | the loop with its counters hands over exactly the specified frames |
| SettingPages.SetFollow | libdtubase/dtucommon.cpp:492-498 | only the lowest tag bit changes |
| SettingPages.ReplyReadBack | libdturuleskit/dtuhalasdu.cpp:147-204 | the items of all frames are the settings in order, nothing lost or repeated, and each frame's element count is its own |
| SettingPages.PayloadsAreShort | libdturuleskit/dtuhalasdu.cpp:159-197 | payloads stay within 225 bytes if and only if no item has more than 222 |
| SettingPages.FollowBits | libdturuleskit/dtuhalasdu.cpp:161-168 | the bit is right on every frame unless one frame takes all items but the last |
| SettingPages.LastFollowBitClear | libdturuleskit/dtuhalasdu.cpp:195-203 | the last frame of every non-empty reply says that nothing follows |
| SettingPages.FollowBitsBySize | libdturuleskit/dtuhalasdu.cpp:161-168 | in terms of sizes: right if and only if all items fit one frame, or all but the last still do not |
| GoosePublisher.Publisher.Publish | libdtugoose/dtugoosepublisher.cpp:84-89 | the value is queued first, the flag cleared second |
| GoosePublisher.Publisher.TryDequeue | libdtugoose/dtugoosepublisher.cpp:107-116 | the oldest value leaves the queue with one state-number increment |
| GoosePublisher.Publisher.SendNext | libdtugoose/dtugoosepublisher.cpp:107-136 | one increment, five copies, then flag and last frame |
| GoosePublisher.Publisher.Drain | libdtugoose/dtugoosepublisher.cpp:104-136 | undisturbed, the loop sends all queued values in order and empties the queue |
| GoosePublisher.Publisher.Heartbeat | libdtugoose/dtugoosepublisher.cpp:172-181 | one frame with the last value and no increment |
| GoosePublisher.EveryRunIsExplained | libdtugoose/dtugoosepublisher.cpp:84-188 | for every interleaving the wire is made of rounds of one increment and five copies, in the order published, and of heartbeats repeating the last value, with at most one round begun; nothing published is lost |
| GoosePublisher.StateNumberNamesValue | libdtugoose/dtugoosepublisher.cpp:84-188 | in every interleaving each frame carries the value its state number stands for, all-false for number zero |
| GoosePublisher.NoValueForgotten | libdtugoose/dtugoosepublisher.cpp:84-104 | with values queued and no publish half done, a waiting thread will not choose heartbeats |
| GoosePublisher.HeartbeatComes | libdtugoose/dtugoosepublisher.cpp:101-181 | with values queued or being sent, or the flag set, the thread alone reaches its next heartbeat |
| GoosePublisher.SilenceLasts | libdtugoose/dtugoosepublisher.cpp:101-107 | once silenced, the thread sends nothing more until the next publish |
| GoosePublisher.SilencedExactly | libdtugoose/dtugoosepublisher.cpp:84-136 | a publish about to clear the flag silences the thread if and only if nothing is queued or being sent; otherwise heartbeats keep coming for ever |
| GoosePublisher.SilenceIsReachable | libdtugoose/dtugoosepublisher.cpp:84-136 | an interleaving from the start that leads there |
| GooseLink.GooseSubscriber.UpdateGooseTime | libdtugoose/dtugoosesubscriber.cpp:171-175 | the peer's time is replaced, for a known peer as for a new one (over runs: GooseLink.KnownAreHeard) |
| GooseLink.GooseSubscriber.CurrentState | libdtugoose/dtugoosesubscriber.cpp:187-190 | whether all recorded links are up |
| GooseLink.GooseSubscriber.UpdateGooseLinkState | libdtugoose/dtugoosesubscriber.cpp:177-225 | a command exactly when the peer is new or changed |
| GooseLink.GooseSubscriber.SweepStep | libdtugoose/dtugoosesubscriber.cpp:113-159 | one sweep, in whatever order the map is walked, with the symmetric time difference |
| GooseLink.AlarmFollowsStates | libdtugoose/dtugoosesubscriber.cpp:177-225 | in every run the last command is "restored" if and only if all recorded states are up, and there is one as soon as a peer is recorded |
| GooseLink.SweepSets | libdtugoose/dtugoosesubscriber.cpp:148-158 | after a sweep each peer is up if and only if it was heard within 20000 ms |
| GooseLink.AlarmAfterSweep | libdtugoose/dtugoosesubscriber.cpp:141-162 | after a complete sweep at the end of any run the last command is "restored" if and only if every recorded peer's time is within the limit; told over the events by GooseLink.AlarmTellsEvents |
| GooseLink.KnownAreHeard | libdtugoose/dtugoosesubscriber.cpp:171-175 | in every run a peer is recorded if and only if it was heard, with the time of its last frame |
| GooseLink.AlarmTellsEvents | libdtugoose/dtugoosesubscriber.cpp:141-194 | after any run of events and a complete sweep, nothing was ever sent if no peer was heard, and otherwise the last command is "restored" if and only if the last frame of every peer came within 20000 ms of the sweep |
| GooseLink.QuietSweep | libdtugoose/dtugoosesubscriber.cpp:182-204 | a sweep sends nothing if and only if it finds every link as recorded |
| ProtectionArchive.MakeSummary | libdtustorage/dtuarchivesproact.cpp:150-236 | the fields in order at a running offset, or the exception of a write past 118 bytes |
| ProtectionArchive.ArchiveProtact.FormArchivesFile | libdtustorage/dtuarchivesproact.cpp:122-242 | the file is written first and stays even if the summary then throws |
| ProtectionArchive.Summary | libdtustorage/dtuarchivesproact.cpp:156-236 | the summary is written if and only if the session has at most ten reports, and no write leaves the buffer |
| ProtectionArchive.SummaryReads | libdtustorage/dtuarchivesproact.cpp:192-236 | count, time and each report's offset, type and attribute can be read from the summary |
| ProtectionArchive.SummaryValues | libdtustorage/dtuarchivesproact.cpp:156-191 | the eleven electrical values of the first action stand at their places, zeros behind the reports |
| ProtectionArchive.ArchiveProtact.AddArchivesData | libdtustorage/dtuarchivesproact.cpp:51-120 | the step on one report agrees with the runs that ProtectionArchive.ActionIsFiled, ThrowsExactly and NothingWithoutStart describe |
| ProtectionArchive.ActionIsFiled | libdtustorage/dtuarchivesproact.cpp:66-119 | from any state: a start action with a new timestamp, any reports that keep it open, and its reset leave a file of exactly its own reports in order, with a summary and the session gone if there are at most ten |
| ProtectionArchive.StartOpens | libdtustorage/dtuarchivesproact.cpp:103-119 | a start action with a timestamp not recorded drops whatever else was and leaves exactly its own session |
| ProtectionArchive.ThrowsExactly | libdtustorage/dtuarchivesproact.cpp:55-88 | an exception exactly for a report of the wrong size, or for a reset that comes to ten recorded reports or more |
| ProtectionArchive.NothingWithoutStart | libdtustorage/dtuarchivesproact.cpp:55-119 | with no session recorded, a report that is no start action changes nothing |
| ProtectionArchive.TimeTells | libdtustorage/dtuarchivesproact.cpp:58-60 | with microseconds below a million two reports share a session's timestamp exactly if they carry the same bytes for it |
| ProtectionArchive.RunOrderly | libdtustorage/dtuarchivesproact.cpp:66-119 | in every run at most one session is open, it starts with a start action and has one timestamp; every file also ends with a reset and holds an earlier one only past its tenth report |
| ProtectionArchive.EveryRunOrderly | libdtustorage/dtuarchivesproact.cpp:51-120 | so in every run from the start of the program |
| ProtectionArchive.FileEndsWithItsOnlyReset | libdtustorage/dtuarchivesproact.cpp:80-88 | up to eleven reports the last is the file's only reset |
| ProtectionArchive.ResetCloses | libdtustorage/dtuarchivesproact.cpp:80-88 | a reset closes its session if and only if it has at most ten reports then; the file is written either way |
| PresetCommit.Store.PresetSettingData | libdtustorage/dtustorage.cpp:112-159 | true if and only if every item was good or an earlier preset is pending |
| PresetCommit.Store.OperateParam | libdturuleskit/dtuhalasdu.cpp:1728-1808 | a payload of fewer than three bytes throws and leaves the flags; otherwise the answer, when savePreset and revertPreset are called, and that the flags are cleared in every case |
| PresetCommit.TagBits | libdturuleskit/dtuhalasdu.cpp:1738-1776 | a cancel has bit 6 of the tag set, a commit neither bit 6 nor bit 7 |
| PresetCommit.Constants | libdturuleskit/dtuhalasdu.cpp:1756 | what a good item is, and the limit of 60000 ms |
| PresetCommit.Store.ConnectionClosed | libdturuleskit/dtu104server.cpp:142-148 | a disconnect clears both flags |
| PresetCommit.NoPresetCommitsTwice | libdturuleskit/dtuhalasdu.cpp:1747-1773 | in every run each savePreset call has its own setting of the flag since the last commit, cancel or disconnect, within 60000 ms of the time it recorded |
| PresetCommit.WithinLimit | libdturuleskit/dtuhalasdu.cpp:1755-1756 | the unsigned difference passes within a minute after the recorded time, or by wrapping around 64 bits |
| PresetCommit.SavesOnDefaultExactly | libdtustorage/dtustorage.h:138-139 | the same from any state a program can be in: exactly when a run of any events saves on the default |
| PresetCommit.DefaultFlagCommits | libdtustorage/dtustorage.h:138-139 | over all runs from the start: some savePreset call relies on no preset if and only if the first commit, cancel or disconnect is a commit in the first minute of the epoch with no preset before it that does anything |
| PresetCommit.CommitWithoutPreset | libdtustorage/dtustorage.h:138-139 | a commit with any commit tag and nothing before it passes if and only if the clock shows that minute |
| PresetCommit.EverySaveWasPreset | libdtustorage/dtustorage.h:138-139 | with a clock past that minute every savePreset call relies on a real preset |
| PresetCommit.EveryRunFromStart | libdtustorage/dtustorage.h:138-139 | both hold in every run from the start of the program |
| PresetCommit.PresetThenCommit | libdtustorage/dtustorage.cpp:123-157 | a commit after a preset saves if and only if its size is announced right, all items were good and the last one is less than a minute old |
| PresetCommit.FailedPresetBlocks | libdtustorage/dtustorage.cpp:115-119 | after a failed preset further presets change nothing until an operation or a disconnect |
| PresetCommit.BadItemStops | libdtustorage/dtustorage.cpp:123-157 | the first bad item stops a preset; the times of the items before it, and its own unless its address is the read-only one, still count |
| PresetCommit.OperationUnblocks | libdtustorage/dtustorage.cpp:112-159 | after any commit, cancel or disconnect the next preset and commit save exactly as from the start |

## Left out

- The deprecated JSON `Reader`, `FastWriter`, `StyledWriter` and `StyledStreamWriter`: older copies of the pair modelled here.
- JsonReader.OurReader.DecodeNumberToken: the decoder of reals is a parameter, because floating point is not modelled.
- JSON reals: their printing and decoding are a parameter that tells which texts are numbers; they are excluded from the round trip.
- JsonReader.OurReader.DecodeKey: the text of a real number used as a key is a parameter, because floating point is not modelled.
- JsonReader.OurReader.ReadComment: comments are not collected, because nothing modelled here reads them back.
- JSON comments: they are read and skipped, but not attached to values; the writer is modelled for values without comments.
- JSON value offsets, the extra location of an error and the formatted error messages.
- Characters stand for bytes: every JSON text is a string with one character per byte, and the theorems hold for all strings.
- JsonRoundTrip.ParsesWhatIsPrinted: assumes an indentation of white space and the null symbol "null", the settings under which the builder does not drop nulls, and keys that survive quoting, because repaired keys may coincide.
- JsonObjects.ParsedComesBack: excludes reals, whose text is a parameter, and keys that do not survive quoting.
- JsonLayout.ValueLaid: for values without reals, and for settings whose symbols hold no line break.
- Aliasing of JSON nodes: the node stack holds values instead of pointers into the root; a node's value is stored back when it is popped.
- DspLink.DspComm.DspReadData: each attempt is given as a finite list of rounds that decides it.
- DspLink.TryExecuteWrite: termination is not claimed, because the code does not bound wrong replies.
- The shared-memory layout, interrupts and waiting times of the DSP link.
- Accesses past the end of a buffer end the model's step as `Overrun`; what the program would do then is not modelled.
- FileTransfer.Rebuilds: promises nothing once other traffic has reached past a buffer, because the code then writes to memory that is not its own.
- The special handling of a saved GOOSE configuration file, and the file system itself: `save_file` is a recorded call with a given result.
- ASDU objects of lib60870 are their payload and element count; the acknowledgement frames around a file read are not modelled.
- Settings.SettingInfo.Parse: bodies of 2^31 bytes and more are kept out, and the configured address size is three; the third address byte is dropped by the code.
- Remote dispatch of setting requests to other devices, and the older handlers in `dturulesasdu.cpp` and `dturuleshandle.cpp`.
- The GOOSE publisher without a network publisher object, its stop flag, and several producers; the library's sequence numbers.
- Notifications to the display and the tools, and names of archive files; a file of the same timestamp would overwrite the earlier one.
- What `savePreset`, `revertPreset` and the parameter database do: their results are inputs.
- Floating-point signal processing, measured-value scaling, XML, RPC, and logging.
