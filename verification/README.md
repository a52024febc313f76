# Verification of the event pipeline's codecs, protocols and index structures

The program moves events between threads and processes as encoded bytes. This project models the parts that encode,
decode, number, index and order them, as functions on byte strings and as classes with the program's own mutable state,
and proves what they are for.

- **MessagePack** (`LuaValues`, `LuaTables`, `MsgPack*`): the encoder with its growing buffer, the cursor decoder, and
  streams; `MsgPackFormats` has the formats by their first bytes. A Lua table is the list of its entries in the order
  they are visited; what it means is a finite map.
- **JSON** (`Json*`): the printer with its string buffer, the escapes with UTF-16 and UTF-8, and the parser.
  `JsonGrammar` has texts as syntax trees with whitespace, and `JsonLimits` what is escaped and refused. The C library's
  formatting and reading of numbers are parameters, assumed to agree on integers of at most 14 digits.
- **IPFIX** (`Ipfix*`): the exporter that patches set headers late and puts templates in front of buffered data, and the
  collector that keeps a template list and decodes records where they are in the message. `IpfixLayout` has the wire
  format byte by byte, and `IpfixNetflow` messages of version 9 and the sets that are skipped.
- **Index structures**: the flow cache (`FlowKeys`, `FlowCache`), argument permutation (`Getopt`, `GetoptReports`), the
  rehashing table (`HashTable`), the timer list (`TimerQueue`) and the template identification (`TemplateIdent`,
  `TemplateBuffer`).
- **Pipeline**: from `analyze_event` through the framed pipe to an analyzer's `loop()`.

Code that works in place is modelled by methods on classes and arrays, each proved against a function on values; the
laws are then lemmas about those functions. `Bytes` has the integer formats and `Options` a value that may be missing.

Where the code and its documents or standards differ, the model follows the code:

- A template withdrawal (section 8.1 of RFC 7011) is obeyed only when more follows it in its set, because what is left
  of a set is skipped when it is no longer than padding. Of a list of withdrawals the last is not obeyed
  (`IpfixLimits.AllButLastObeyed`). Of withdrawals of options templates, for which six bytes are read instead of four,
  a lone one is not obeyed, of two the first, and of more those that `IpfixLimits.OptionsWithdrawalsObeyed` tells.
- For the same reason a record of four bytes or less at the end of its set is not read (`IpfixLimits.AllRecordsReadIff`).
- The bounds check of a record does not count length bytes, so a record can reach past its set or its message: for some
  messages exactly if its template has a variable-length field (`IpfixLimits.StaysInsideIff`, `NeverBeyondIff`).
- A set whose template has only fields of length 0 is read for ever (`IpfixLimits.EndlessIff`).
- Options templates of version 9 (section 6.1 of RFC 3954) are never read, because their lengths are compared with the
  bytes left in the set, their own head included (`IpfixNetflow.OptionsTemplates9AreNotRead`).
- A set that is longer than its message ends the reading without an error, also of a message that has had one
  (`IpfixNetflow.LongSetsEnd`).
- The flow cache compares addresses in the length of the packet's version, whatever the version of the flow. Which keys
  can be taken for each other is `FlowKeys.Meets`: a run is exact if there are none (`FlowCache.Run`), and for all
  others there are runs that are not (`FlowCache.Merge`, `FlowCache.WrongLink`).
- The identification of a template is cut at ten characters a field, and then different templates can have the same
  (`TemplateBuffer.ResultFitsIff`, `LoneFieldIsCut`).
- The underscores in it are appended without a look at the room, so with six fields of different enterprises it can be
  written past its buffer (`TemplateBuffer.SixFieldsOverrun`). `TemplateBuffer.OverrunIff` says when; it never is when
  the string fits, as it does for all templates of standard fields (`TemplateBuffer.StandardFieldsFit`).
- The exporter writes values shorter than their fixed-length fields as they are, and their records are read differently
  (`IpfixLimits.ReadBackIff`); records of more than 1396 bytes it writes past its buffer
  (`IpfixExporter.RecordOverrunsIff`).
- NULL userdata as a table key is encoded as nil, and what was encoded cannot be decoded (`MsgPackRoundTrip.DecodesIff`).
- Timers with equal deadlines are not always in start order (`TimerQueue.TieOutOfOrder`, with the exact condition).
- The first character of an option string that selects the order of a scan is itself an option after the first call
  (`Getopt.LeadingCharacterBecomesAnOption`).
- A NUL inside a JSON document ends it, and what follows is not looked at (`JsonNul.NulEndsText`); as one of the first
  two bytes it is an error.
- A message of exactly 32768 bytes is skipped although it was not cut.

## Model

| member | source | states |
|---|---|---|
| `MsgPackRoundTrip.RoundTrip` | src/lib/lua-cmsgpack/lua_cmsgpack.c:176-508 | For every Lua value without NULL userdata as a table key, and all following bytes, decoding what was encoded succeeds, uses exactly the encoded bytes and yields the value without NULL userdata and without tables at level 16; it is the same value if and only if it holds neither |
| `MsgPackRoundTrip.DecodesIff` | src/lib/lua-cmsgpack/lua_cmsgpack.c:176-508 | Where NULL may be a table key, an encoded value decodes exactly if no table that is written has one; otherwise decoding ends with the error for a nil key |
| `MsgPackRoundTrip.NullKeyIff` | src/lib/lua-cmsgpack/lua_cmsgpack.c:382-475 | A table that is written has such a key if it has one itself or a table in it above level 16 does, in array or map form |
| `MsgPackRoundTrip.DecodeEncode` | src/lib/lua-cmsgpack/lua_cmsgpack.c:553-793 | Decoding an encoded value makes exactly the assignments of its image, whatever follows |
| `MsgPackRoundTrip.ArrayAndMapFormsAgree` | src/lib/lua-cmsgpack/lua_cmsgpack.c:382-475 | A table with keys 1..N decodes to the same map from its array form as from its map form |
| `LuaTables.ArrayTestIsPigeonhole` | src/lib/lua-cmsgpack/lua_cmsgpack.c:427-468 | The max==count test holds exactly when the keys are 1..N with N at most the largest C int |
| `MsgPackRoundTrip.MeaningOfImage` | src/lib/lua-cmsgpack/lua_cmsgpack.c:484-508 | What comes back means the encoded value with what the encoder writes as nil taken out |
| `MsgPackRoundTrip.PrunedIsIdentityIff` | src/lib/lua-cmsgpack/lua_cmsgpack.c:484-508 | Nothing is taken out exactly when there is no NULL userdata and no table below level 16 |
| `MsgPackRoundTrip.EncodedPrefixIsEof` | src/lib/lua-cmsgpack/lua_cmsgpack.c:150-172 | Every strict prefix of an encoded value is reported as missing bytes, never as bad data or a value |
| `MsgPack.StrictPrefixIsEof` | src/lib/lua-cmsgpack/lua_cmsgpack.c:581-793 | The same for any input that decodes: cut before its end, it is reported as missing bytes |
| `MsgPack.DecodeExtend` | src/lib/lua-cmsgpack/lua_cmsgpack.c:581-793 | A result other than missing bytes is unchanged by bytes appended after the input |
| `MsgPack.Decode` | src/lib/lua-cmsgpack/lua_cmsgpack.c:581-793 | A value is read from between one byte and all of the input, on any bytes whatever; the recursion ends |
| `MsgPackFormats.OneByte` | src/lib/lua-cmsgpack/lua_cmsgpack.c:666-793 | What each first byte that is a whole object or a short header stands for: numbers -32..127, nil, booleans, maps and arrays of up to 15 |
| `MsgPackFormats.RefusedIff` | src/lib/lua-cmsgpack/lua_cmsgpack.c:769-793 | A head is refused as badly formatted exactly if its first byte is 0xc1, 0xc4..0xc9 or 0xd4..0xd8 |
| `MsgPackFormats.SignedFormats` | src/lib/lua-cmsgpack/lua_cmsgpack.c:593-665 | Behind 0xd0, 0xd1, 0xd2 and 0xd3 every number of 1, 2, 4 and 8 bytes in two's complement is read as itself, also where the encoder takes a shorter format |
| `MsgPackFormats.UnsignedFormats` | src/lib/lua-cmsgpack/lua_cmsgpack.c:594-626 | Behind 0xcc, 0xcd and 0xce every number of 1, 2 and 4 bytes is read as itself |
| `MsgPackFormats.UnsignedFormat64` | src/lib/lua-cmsgpack/lua_cmsgpack.c:636-648 | Behind 0xcf a number from 2^63 on is read less 2^64, and any other as itself |
| `MsgPackFormats.DoubleFormats` | src/lib/lua-cmsgpack/lua_cmsgpack.c:678-699 | Behind 0xca and 0xcb the next four and eight bytes are the number |
| `MsgPackFormats.StringFormats` | src/lib/lua-cmsgpack/lua_cmsgpack.c:700-730 | Behind 0xd9, 0xda and 0xdb: a string of every length that the width holds, or missing bytes |
| `MsgPackFormats.ShortStringFormat` | src/lib/lua-cmsgpack/lua_cmsgpack.c:776-780 | From 0xa0 to 0xbf the first byte tells the length of a string, which follows or is missing |
| `MsgPackFormats.ArrayFormats` | src/lib/lua-cmsgpack/lua_cmsgpack.c:731-749 | Behind 0xdc and 0xdd: an array of every length that the width holds |
| `MsgPackFormats.MapFormats` | src/lib/lua-cmsgpack/lua_cmsgpack.c:750-768 | Behind 0xde and 0xdf: a map of every length that the width holds |
| `MsgPackFormats.IntIsShortest` | src/lib/lua-cmsgpack/lua_cmsgpack.c:223-293 | Of all heads that are read as an integer the encoder writes one of least length |
| `MsgPackFormats.StringIsShortest` | src/lib/lua-cmsgpack/lua_cmsgpack.c:176-202 | Of all that are read as a string, likewise |
| `MsgPackFormats.ContainerIsShortest` | src/lib/lua-cmsgpack/lua_cmsgpack.c:295-339 | Of all headers of arrays and maps, likewise |
| `MsgPackFormats.TableForms` | src/lib/lua-cmsgpack/lua_cmsgpack.c:470-475 | A table above level 16 is written as an array exactly when its keys are 1..N, and otherwise as a map, with the number of its entries |
| `MsgPackFormats.SixteenLevels` | src/lib/lua-cmsgpack/lua_cmsgpack.c:484-508 | A table is written as nil at level 16 and nowhere else |
| `MsgPackFormats.ConstantFormats` | src/lib/lua-cmsgpack/lua_cmsgpack.c:204-508 | The bytes written for nil, NULL, booleans and doubles |
| `MsgPackFormats.NotANumberIff` | src/lib/lua-cmsgpack/lua_cmsgpack.c:567-577 | A double is no number exactly if, without its sign, its bits are above those of infinity |
| `MsgPackFormats.KeyRefusedIff` | src/lib/lua-cmsgpack/lua_cmsgpack.c:567-577 | A pair that has been read is refused exactly if its key is nil or not a number |
| `MsgPackCursor.MpCur.DecodeType` | src/lib/lua-cmsgpack/lua_cmsgpack.c:581-793 | The cursor decoder computes the decoding function, keeps position plus remaining constant, and moves over exactly the bytes of the value |
| `MsgPackCursor.MpCur.DecodeArray` | src/lib/lua-cmsgpack/lua_cmsgpack.c:553-564 | The counting loop over array elements, against the decoding function |
| `MsgPackCursor.MpCur.DecodeHash` | src/lib/lua-cmsgpack/lua_cmsgpack.c:567-577 | The counting loop over key and value pairs, with the error Lua raises for a nil or NaN key |
| `MsgPackCursor.MpCur.ReadHeadAt` | src/lib/lua-cmsgpack/lua_cmsgpack.c:581-793 | Tag dispatch and bounds checks: what the first bytes say, and the cursor after them |
| `MsgPackCursor.UnpackFull` | src/lib/lua-cmsgpack/lua_cmsgpack.c:795-868 | The three unpack functions: objects until the input or limit ends, the offset to go on from, and the errors |
| `MsgPackStream.UnpackPack` | src/lib/lua-cmsgpack/lua_cmsgpack.c:514-547 | Unpacking packed arguments gives the arguments back, each as far as it survives encoding |
| `MsgPackStream.ResumeIsUnpack` | src/lib/lua-cmsgpack/lua_cmsgpack.c:795-868 | For any input and any decoder, reading a few objects at a time from the returned offset until -1 gives the objects, or the error, of one full read |
| `MsgPackStream.CodecResumes` | src/lib/lua-cmsgpack/lua_cmsgpack.c:850-868 | That law for the codec's own decoder: unpack_one and unpack_limit against unpack |
| `MsgPackStream.RefusedIff` | src/lib/lua-cmsgpack/lua_cmsgpack.c:795-868 | A request is refused exactly for a negative offset or limit, or for an offset past the end |
| `MsgPackStream.LimitIsKept` | src/lib/lua-cmsgpack/lua_cmsgpack.c:795-868 | No more objects come back than were asked for, and fewer only at the end of the input |
| `MsgPackStream.OneObject` | src/lib/lua-cmsgpack/lua_cmsgpack.c:854-859 | Reading one object gives it and the offset behind it, or -1 at the end |
| `MsgPackStream.Pack` | src/lib/lua-cmsgpack/lua_cmsgpack.c:514-547 | Encoding into one reused buffer and joining the pieces gives the concatenated encodings |
| `MsgPackStream.AppendAll` | src/lib/lua-cmsgpack/lua_cmsgpack.c:89-130 | After any run of appends the contents are the concatenation, and the bytes carried over by reallocations are at most the capacity, which is at most twice the bytes appended |
| `MsgPackBuffer.MpBuf.Append` | src/lib/lua-cmsgpack/lua_cmsgpack.c:120-130 | An append adds exactly the bytes, in place or in a buffer of twice the size needed |
| `MsgPackBuffer.EncodeType` | src/lib/lua-cmsgpack/lua_cmsgpack.c:484-508 | The encoder with its buffer writes the encoding function's bytes after what was there |
| `MsgPackBuffer.TableIsAnArray` | src/lib/lua-cmsgpack/lua_cmsgpack.c:427-468 | The single pass over the keys decides the array test |
| `MsgPackBuffer.IntHeaderBytes` | src/lib/lua-cmsgpack/lua_cmsgpack.c:223-293 | The byte-by-byte integer formats are the big-endian ones of the MessagePack specification |
| `MsgPackBuffer.StringHeaderBytes` | src/lib/lua-cmsgpack/lua_cmsgpack.c:176-202 | The same for string lengths |
| `JsonRoundTrip.RoundTrip` | src/lib/lua-cjson/lua-cjson.c:466-735 | Values of null, booleans, byte strings, integers of at most 14 digits, dense arrays and text-keyed objects, nested at most 1000 deep and visited in any order, print and decode to the same value |
| `JsonRoundTrip.RoundTripOnlyIf` | src/lib/lua-cjson/lua-cjson.c:1256-1294 | Of the float-free values that print, exactly those without nil, holes in arrays and number keys come back the same |
| `JsonRoundTrip.PrintsIff` | src/lib/lua-cjson/lua-cjson.c:539-560 | Such a value prints exactly when it is nested at most 1000 deep |
| `JsonRoundTrip.ParsePrint` | src/lib/lua-cjson/lua-cjson.c:888-1254 | The parser reads back what was printed and stops exactly at what follows, at any depth |
| `JsonRoundTrip.SameMeaningIff` | src/lib/lua-cjson/lua-cjson.c:496-537 | What is read back means the value printed exactly when nothing in it turns into null or text |
| `JsonRoundTrip.PrintHasNoNul` | src/lib/lua-cjson/lua-cjson.c:1268-1275 | Printed text is not empty and has no NUL, so it is never taken for UTF-16 or cut short |
| `JsonRoundTrip.IntegersCanBeReadBack` | src/lib/lua-cjson/lua-cjson.c:999-1012 | The assumptions about the C library's number formatting and reading hold of an actual decimal formatter and reader |
| `JsonSpaced.SpacedRoundTrip` | src/lib/lua-cjson/lua-cjson.c:1017-1094 | Printed text with any spaces, tabs, line feeds and carriage returns before, behind and between its tokens decodes to the value that the printed text decodes to |
| `JsonSpaced.TreeIsPrinted` | src/lib/lua-cjson/lua-cjson.c:496-704 | The printed text is the text of the value's tree without whitespace |
| `JsonSpaced.TightIsSame` | src/lib/lua-cjson/lua-cjson.c:1017-1094 | Taking the whitespace out of a tree changes neither what it stands for nor its depth |
| `JsonGrammar.AcceptedIff` | src/lib/lua-cjson/lua-cjson.c:888-1294 | Over syntax trees that spell every token by its characters: the parser accepts exactly the texts of trees nested at most 1000 deep, with no NUL in the first two bytes, and makes of them what the tree stands for |
| `JsonGrammar.Reads` | src/lib/lua-cjson/lua-cjson.c:1138-1254 | The text of any tree is read as what it stands for, and reading stops behind it |
| `JsonGrammar.Found` | src/lib/lua-cjson/lua-cjson.c:1138-1254 | Whatever is read as a value is the text of a tree for that value, as deep as was allowed |
| `JsonGrammar.LexBlank` | src/lib/lua-cjson/lua-cjson.c:417-420 | Bytes 32, 9, 10 and 13 before a token are skipped, however many |
| `JsonGrammar.CharsRead` | src/lib/lua-cjson/lua-cjson.c:888-946 | Raw characters, letters behind a backslash and unicode escapes are read as what they stand for |
| `JsonGrammar.EndedIff` | src/lib/lua-cjson/lua-cjson.c:1017-1094 | The end is seen exactly behind such bytes where the text ends or has a NUL |
| `JsonNul.NulEndsText` | src/lib/lua-cjson/lua-cjson.c:1256-1294 | A NUL behind the first two bytes ends a text: it decodes, or fails, as the text before the NUL does, whatever follows |
| `JsonNul.RubbishAccepted` | src/lib/lua-cjson/lua-cjson.c:1256-1294 | An empty object, a NUL and any bytes decode to an empty table |
| `JsonNul.EndIff` | src/lib/lua-cjson/lua-cjson.c:1017-1094 | The parser sees the end exactly behind whitespace where the text ends or has a NUL |
| `JsonNul.PlainReadStopsAtNul` | src/lib/lua-cjson/lua-cjson.c:999-1012 | What is assumed there of the C library's number reader, that it does not look past a NUL, holds of an actual one |
| `JsonParser.DecodeText` | src/lib/lua-cjson/lua-cjson.c:1256-1294 | Decoding any text gives what the parsing function says, with every access inside the text and its NUL or inside the temporary buffer |
| `JsonParser.Parser.ParseObjectContext` | src/lib/lua-cjson/lua-cjson.c:1138-1186 | Objects, with the depth limit, every syntax error, and the depth counter restored on return |
| `JsonParser.Parser.ParseArrayContext` | src/lib/lua-cjson/lua-cjson.c:1189-1224 | Arrays, likewise |
| `JsonParser.Parser.NextToken` | src/lib/lua-cjson/lua-cjson.c:1017-1094 | Whitespace and token dispatch; the position never passes the NUL |
| `JsonParser.Parser.NextStringToken` | src/lib/lua-cjson/lua-cjson.c:888-946 | Unchecked appends of a decoded string stay inside the buffer made once for the whole text |
| `JsonParser.Parser.AppendUnicodeEscape` | src/lib/lua-cjson/lua-cjson.c:822-878 | Moves over an escape and appends its UTF-8, or reports an error and does neither |
| `JsonParser.Parser.DecodeHex4At` | src/lib/lua-cjson/lua-cjson.c:755-773 | Four hex digits, reading no character after the first that is not one |
| `JsonString.ScanString` | src/lib/lua-cjson/lua-cjson.c:888-946 | A decoded string is shorter than the input consumed for it |
| `JsonString.QuotedReadsBack` | src/lib/lua-cjson/lua-cjson.c:466-490 | Scanning a quoted byte string gives the string and leaves what follows, for all strings |
| `JsonString.PieceReadsBack` | src/lib/lua-cjson/lua-cjson.c:156-193 | Every entry of the escape table is undone by the decoding side |
| `JsonLimits.EscapeTable` | src/lib/lua-cjson/lua-cjson.c:156-193 | What each of the 256 bytes is printed as |
| `JsonLimits.QuotedHasNoControl` | src/lib/lua-cjson/lua-cjson.c:466-490 | A printed string stands between quotes and has no byte below 32, nor 127, in it |
| `JsonLimits.SparseIff` | src/lib/lua-cjson/lua-cjson.c:496-537 | An array is too sparse exactly if it has a key above 10 that is more than twice the number of its entries |
| `JsonLimits.TablesRefused` | src/lib/lua-cjson/lua-cjson.c:539-704 | A table is refused from the thousandth level on, and above it if it is too sparse |
| `JsonLimits.EmptyTableIsAnObject` | src/lib/lua-cjson/lua-cjson.c:621-704 | A table without entries is printed as an object |
| `JsonLimits.NotFiniteIff` | src/lib/lua-cjson/lua-cjson.c:591-619 | A number is refused exactly if, without its sign, its bits are those of infinity or above |
| `JsonLimits.KeyRefusedIff` | src/lib/lua-cjson/lua-cjson.c:621-660 | A key is refused exactly if it is neither text nor a number |
| `JsonUnicode.EscapeIsUtf16` | src/lib/lua-cjson/lua-cjson.c:822-878 | An accepted escape is the UTF-16 form of a scalar value (section 2.1 of RFC 2781), and the bytes appended are its UTF-8, which decodes back to it |
| `JsonUnicode.Utf16IsAccepted` | src/lib/lua-cjson/lua-cjson.c:822-878 | Every scalar value written as its UTF-16 units is accepted |
| `JsonUnicode.Utf8ReadsBack` | src/lib/lua-cjson/lua-cjson.c:778-811 | The written bytes are well-formed UTF-8 of the code point by section 4 of RFC 3629 |
| `JsonUnicode.Utf8IsUnique` | src/lib/lua-cjson/lua-cjson.c:778-811 | No other bytes are well-formed UTF-8 of it |
| `JsonPrinter.AppendData` | src/lib/lua-cjson/lua-cjson.c:663-704 | The printer with its buffer appends the printing function's text, or raises its error |
| `JsonPrinter.AppendQuoted` | src/lib/lua-cjson/lua-cjson.c:466-490 | One reservation of 6n+2 bytes covers a quoted string: its unchecked appends are in bounds and its checked ones never grow the buffer |
| `JsonPrinter.MeasureArray` | src/lib/lua-cjson/lua-cjson.c:496-537 | The single pass over the keys finds the array length or that the table is an object |
| `JsonPrinter.Encode` | src/lib/lua-cjson/lua-cjson.c:706-735 | Encoding into the buffer kept between calls gives exactly the printed text |
| `JsonBuffer.StrBuf.CalculateNewSize` | src/lib/lua-cjson/strbuf.c:134-159 | The size doubles until it is enough, and to less than twice what is needed; shrinking is exact |
| `JsonBuffer.StrBuf.EnsureEmptyLength` | src/lib/lua-cjson/strbuf.h:95-99 | Room is made, contents are kept |
| `JsonBuffer.StrBuf.AppendCharUnsafe` | src/lib/lua-cjson/strbuf.h:122-125 | An unchecked append in reserved room |
| `JsonBuffer.StrBuf.AppendString` | src/lib/lua-cjson/strbuf.c:182-198 | The counted-space loop appends the string, and does not grow a buffer with room for it |
| `IpfixExporter.Run` | src/lib/libipfix/lib/ipfix.c:2273-2453 | For every run of exports and flushes, whichever sends fail, a collector reads from the messages the records that were taken, in order and with the same bytes, up to those still buffered; after a successful flush, all of them. A record is refused if it does not match its template, and taken if it does, its template fits a message and no send fails. Every message has the length, the time of the operation that sent it, the count of the records sent before it and the exporter's domain in its header |
| `IpfixExporter.Exporter.Export` | src/lib/libipfix/lib/ipfix.c:2273-2406 | A record is taken or refused; the exporter stays consistent with what a collector has and what is buffered |
| `IpfixExporter.Exporter.WriteTemplate` | src/lib/libipfix/lib/ipfix.c:1429-1591 | A template goes before what is buffered, with the open set moved, after a flush when both do not fit |
| `IpfixExporter.Exporter.Flush` | src/lib/libipfix/lib/ipfix.c:2412-2453 | After a successful flush the collector has everything exported; after a failed one everything is still buffered |
| `IpfixExporter.Exporter.FinishSet` | src/lib/libipfix/lib/ipfix.c:2214-2228 | The header patched late makes the buffer the wire form of its sets |
| `IpfixExporter.Exporter.AddRecord` | src/lib/libipfix/lib/ipfix.c:2359-2406 | A record joins the open set of its template or starts a set; the sequence number is the count of records |
| `IpfixExporter.Exporter.PutRecord` | src/lib/libipfix/lib/ipfix.c:2377-2397 | Variable-length values behind one or three length bytes, as in section 7 of RFC 7011 |
| `IpfixExporter.RecordSize` | src/lib/libipfix/lib/ipfix.c:2335-2348 | The size computed beforehand is the size written; a value longer than its field is refused |
| `IpfixExporter.RecordOverrunsIff` | src/lib/libipfix/lib/ipfix.c:2309-2376 | A record that is not refused is written past the buffer exactly if it has more than 1396 bytes, whatever is buffered |
| `IpfixExporter.TemplateSize` | src/lib/libipfix/lib/ipfix.c:1438-1458 | The same for a template set |
| `IpfixExporter.AccountsSend` | src/lib/libipfix/lib/ipfix.c:1362-1389 | A message with number seqno minus nrecords is read without loss and numbered as section 3.1 of RFC 7011 asks |
| `IpfixRoundTrip.HeaderBack` | src/lib/libipfix/lib/ipfix.c:1362-1389 | In a header version, length, time, number and domain stand at bytes 0, 2, 4, 8 and 12 |
| `IpfixLayout.SetLayout` | src/lib/libipfix/lib/ipfix.c:2214-2228 | A set is its id, its length with these four bytes, and its contents (section 3.3 of RFC 7011) |
| `IpfixLayout.SetIds` | src/lib/libipfix/lib/ipfix.c:1496-1591 | Templates with scope fields go in sets of id 3, others in sets of id 2, and records in sets of their template's id |
| `IpfixLayout.TemplateLayout` | src/lib/libipfix/lib/ipfix.c:1496-1591 | A template record by its bytes: id, number of fields, with scope fields their number, and the fields (section 3.4) |
| `IpfixLayout.FieldLayout` | src/lib/libipfix/lib/ipfix.c:1496-1591 | A field by its bytes: element number, length and, with the highest bit set, enterprise number (section 3.2) |
| `IpfixLayout.LengthLayout` | src/lib/libipfix/lib/ipfix.c:2377-2397 | The length of a variable-length value takes one byte up to 254, and three from 255 on (section 7) |
| `IpfixLayout.ValueLayout` | src/lib/libipfix/lib/ipfix.c:328-396 | Which byte of a value stands where: numbers of supported lengths are turned round, others overwritten |
| `IpfixLayout.NetworkOrder` | src/lib/libipfix/lib/ipfix.c:328-396 | Numbers have their highest byte first |
| `IpfixLayout.LengthsRead` | src/lib/libipfix/lib/ipfix_col.c:838-898 | The length of a value as it is read: that of the field, or one byte, or 255 and two bytes |
| `IpfixBuffered.GoodFront` | src/lib/libipfix/lib/ipfix.c:1496-1505 | Putting a template in front of buffered sets keeps them readable and their records the same |
| `IpfixBuffered.GoodMore` | src/lib/libipfix/lib/ipfix.c:2359-2406 | A record added to the last set is read after those already there |
| `IpfixBuffered.LayoutFinished` | src/lib/libipfix/lib/ipfix.c:2214-2228 | An unpatched buffer becomes the wire form of its sets by writing four bytes |
| `IpfixRoundTrip.ReadMessageBack` | src/lib/libipfix/lib/ipfix_col.c:915-1104 | A message of template and record sets is read as exactly those templates and records |
| `IpfixRoundTrip.ReadContentBack` | src/lib/libipfix/lib/ipfix_col.c:978-1092 | Each set is read as what was put into it, whatever follows |
| `IpfixRoundTrip.ReadRecordBack` | src/lib/libipfix/lib/ipfix_col.c:838-898 | A record is read back value by value, whatever follows in the message |
| `IpfixRoundTrip.ReadTemplateBack` | src/lib/libipfix/lib/ipfix_col.c:612-774 | A template record, with enterprise numbers and scope fields, is read back |
| `IpfixNetflow.ReadMessage9` | src/lib/libipfix/lib/ipfix_col.c:915-1104 | A message of version 9, with a header of 20 bytes and the number of its sets in it, is read as the templates in its sets of id 0 and its records; no set behind that number is read |
| `IpfixNetflow.ReadContent9` | src/lib/libipfix/lib/ipfix_col.c:978-1092 | Each set of such a message is read as what was put into it, whatever follows |
| `IpfixNetflow.OtherMessagesFail` | src/lib/libipfix/lib/ipfix_col.c:510-535 | Other versions, and messages shorter than the 16 and 20 bytes of the header, are not read |
| `IpfixNetflow.TemplateSetsAreRead` | src/lib/libipfix/lib/ipfix_col.c:1014-1043 | Sets of ids 0 to 3 are read as templates |
| `IpfixNetflow.ReservedSetsAreSkipped` | src/lib/libipfix/lib/ipfix_col.c:1087-1091 | Sets of ids 4 to 255 change nothing |
| `IpfixNetflow.UnknownSetsAreSkipped` | src/lib/libipfix/lib/ipfix_col.c:1045-1056 | A set of records without its template is skipped, and counts as an error |
| `IpfixNetflow.ErrorsEndInFailure` | src/lib/libipfix/lib/ipfix_col.c:1092-1103 | At the end of the sets, reading fails exactly after an error |
| `IpfixNetflow.ShortSetsAreSkipped` | src/lib/libipfix/lib/ipfix_col.c:985-994 | Of a set whose length is below four only the header is skipped |
| `IpfixNetflow.LongSetsEnd` | src/lib/libipfix/lib/ipfix_col.c:985-1006 | A set longer than what is left ends the reading without failure, even after an error |
| `IpfixNetflow.OptionsTemplates9AreNotRead` | src/lib/libipfix/lib/ipfix_col.c:640-655 | No options template of version 9 with lengths that are multiples of four is read; it takes the rest of its set with it, and sometimes the template of its id |
| `IpfixWire.CodedTwiceIff` | src/lib/libipfix/lib/ipfix.c:328-396 | A value is decoded to what was encoded exactly when its length is 1, 2, 4 or 8 (4 or 8 for floats), or it is already what the overwriting leaves |
| `IpfixLimits.WithdrawalObeyedIff` | src/lib/libipfix/lib/ipfix_col.c:1022-1043 | In a set of data templates a withdrawal (section 8.1 of RFC 7011) is obeyed exactly when something follows it in the set |
| `IpfixLimits.AllButLastObeyed` | src/lib/libipfix/lib/ipfix_col.c:1022-1043 | Of any list of such withdrawals in one set, all are obeyed but the last |
| `IpfixLimits.OptionsWithdrawalObeyedIff` | src/lib/libipfix/lib/ipfix_col.c:612-650 | In a set of options templates six bytes are read for a four-byte withdrawal; it is obeyed exactly when two bytes or more follow it |
| `IpfixLimits.OnlyFirstOfTwoObeyed` | src/lib/libipfix/lib/ipfix_col.c:1022-1043 | Of two withdrawals of options templates in one set, only the first is obeyed |
| `IpfixLimits.OptionsWithdrawalsObeyed` | src/lib/libipfix/lib/ipfix_col.c:1022-1043 | For any list of withdrawals of options templates in one set, exactly those of `Obeyed` are obeyed, apart from id 0: the first, if another follows, and then, behind what is read as a template of id 0, it begins again |
| `IpfixLimits.AllRecordsReadIff` | src/lib/libipfix/lib/ipfix_col.c:1064-1085 | All non-empty records of a set are read exactly when the last is longer than four bytes; a shorter last one is taken for padding |
| `IpfixLimits.ReadBackIff` | src/lib/libipfix/lib/ipfix.c:2328-2397 | A record that the exporter writes, of numbers of supported lengths, is read back exactly if every value of fixed length fills its field |
| `IpfixLimits.EndlessIff` | src/lib/libipfix/lib/ipfix_col.c:1064-1085 | Reading a set does not end exactly when it has more than four bytes and every field of its template has length 0 |
| `IpfixLimits.StaysInsideIff` | src/lib/libipfix/lib/ipfix_col.c:838-903 | Every record read lies in its set, for all messages, exactly when the template has no variable-length field |
| `IpfixLimits.NeverBeyondIff` | src/lib/libipfix/lib/ipfix_col.c:838-903 | No read goes beyond the message, for all messages, exactly when the template has no variable-length field |
| `IpfixLimits.FixedSetStays` | src/lib/libipfix/lib/ipfix_col.c:1064-1085 | With fixed lengths only, a set is read within its bytes and what follows it is left as it was |
| `IpfixCollector.LastRecordDecides` | src/lib/libipfix/lib/ipfix_col.c:612-787 | After any sequence of template records an id is known exactly when the last record about it is a good definition, and then with that definition |
| `IpfixCollector.Source.DecodeTemplateRecord` | src/lib/libipfix/lib/ipfix_col.c:612-787 | The list edits refine the table: new, larger, smaller, malformed and withdrawn definitions; ids stay unique |
| `IpfixCollector.Source.DefineInPlace` | src/lib/libipfix/lib/ipfix_col.c:730-783 | Overwriting a definition field by field ends in the new definition, or in the id's removal when the record is bad |
| `IpfixCollector.Source.Find` | src/lib/libipfix/lib/ipfix_col.c:140-151 | The list walk finds a template exactly when its id is in the table |
| `IpfixCollector.Source.Delete` | src/lib/libipfix/lib/ipfix_col.c:153-186 | Unlinking a node removes its id and no other |
| `IpfixCollector.Source.ParseMessage` | src/lib/libipfix/lib/ipfix_col.c:915-1104 | Walking a message in place yields the table, the records and the end result of the reading function, for any bytes |
| `IpfixCollector.ParseDataSet` | src/lib/libipfix/lib/ipfix_col.c:1064-1085 | The record loop with the padding rule, and what it leaves of the message after the set |
| `IpfixCollector.DecodeDataRecord` | src/lib/libipfix/lib/ipfix_col.c:838-898 | A record decoded in place, against the reading function |
| `IpfixCollector.DecodeInPlace` | src/lib/libipfix/lib/ipfix.c:363-396 | Turns a number's bytes round where they are and touches nothing else |
| `FlowCache.Run` | src/lib/libipfix/probe/ipflow.c:95-488 | For every run of updates and drops whose keys are apart, whatever the memory of new nodes held, the cache holds what a bounded map of counts holds and links exactly the flows of mutually reversed keys; every packet and byte counted is in a flow of the list or was in one that was dropped; where flows are linked, a flow is marked as initiator exactly if it has no earlier partner |
| `FlowCache.IntsHoldCounts` | src/lib/libipfix/probe/ipflow.c:470-475 | With the sums taken in 32-bit ints, as the code does, every run gives the counts modulo 2^32; for each that is the count exactly while it is below 2^31 (`IntIsCountIff`) |
| `FlowCache.InitiatedLinked` | src/lib/libipfix/probe/ipflow.c:396-426 | Of two flows that are linked, the one that was there is the initiator and the new one is not |
| `FlowCache.Merge` | src/lib/libipfix/probe/ipflow.c:330-350 | For every 4-byte key and 16-byte key that meet (same first bytes, numbers and hash) a run of two packets counts both in one flow, and not as the bounded map does |
| `FlowCache.WrongLink` | src/lib/libipfix/probe/ipflow.c:396-426 | For every other two keys of which one's reverse meets the other, a run of two packets links two flows that are not each other's reverse; with Merge this covers all keys that are not apart |
| `FlowKeys.OneVersionIsApart` | src/lib/libipfix/probe/ipflow.c:330-350 | Keys with addresses of one length are apart |
| `FlowKeys.ShortMeetsZeros` | src/lib/libipfix/probe/ipflow.c:238-266 | With every 4-byte key there is a 16-byte one that it meets, at any table size |
| `FlowKeys.MetOnlyIf` | src/lib/libipfix/probe/ipflow.c:330-350 | Comparing as many bytes as the packet's version has finds the flow of the packet's key, or one whose key it meets |
| `FlowCache.Cache.Update` | src/lib/libipfix/probe/ipflow.c:271-488 | One packet is counted in the first flow of its chain that it meets, in a new one, or nowhere when the cache is full; list, chains, index and counters stay consistent, and the links too if the reversed key meets no foreign flow |
| `FlowCache.Cache.Drop` | src/lib/libipfix/probe/ipflow.c:95-165 | Removes the flow and its partner only, and exactly their packets and bytes |
| `FlowCache.LinksAreSymmetric` | src/lib/libipfix/probe/ipflow.c:396-426 | Linked flows are each other's reverse and each other's partner |
| `FlowCache.Cache.Lookup` | src/lib/libipfix/probe/ipflow.c:330-350 | The chain walk finds the first flow that the packet meets; if it meets no foreign flow, that is the flow of its key, exactly when there is one |
| `FlowCache.Cache.LinkReverse` | src/lib/libipfix/probe/ipflow.c:396-426 | The walk for the reverse links every flow that the reversed key meets, the last one for good, and changes nothing but links |
| `FlowKeys.CalcHash` | src/lib/libipfix/probe/ipflow.c:238-266 | The loop computes the hash without 32-bit wrap-around, below the table size |
| `FlowKeys.ShortHash` | src/lib/libipfix/probe/ipflow.c:238-266 | The hash of a key of 4-byte addresses, byte by byte: the source's words have their high byte first, the destination's their low byte |
| `FlowCache.OneNodeEach` | src/lib/libipfix/probe/ipflow.c:53-81 | The list has one node for every key |
| `Getopt.ScanAll` | src/lib/libipfix/libmisc/getopt.c:510-963 | A whole scan ends, in any of the three orders; it reports what one pass from left to right reports, and leaves argv with options and their arguments first, non-options last, each in order, and optind at the first non-option; argv is unchanged where the order is not permuting |
| `GetoptReports.WrittenIsReported` | src/lib/libipfix/libmisc/getopt.c:599-963 | Whatever list of flags and options with arguments the option string allows, written as clusters, with arguments attached, separate or left out and other elements between, is reported as that list with those arguments, in every order that goes on; what follows a double dash is not looked at |
| `GetoptReports.ReportsAreTrue` | src/lib/libipfix/libmisc/getopt.c:764-963 | For any arguments every report says what is so by the characters of the option string: `?` for those not in it and the colon, an argument only behind a colon, none missing where two are |
| `GetoptReports.KindIs` | src/lib/libipfix/libmisc/getopt.c:769-963 | A character is an option if it is in the option string and no colon; the colons behind its first place tell whether it has an argument, or may have |
| `GetoptReports.AllowedThroughout` | src/lib/libipfix/libmisc/getopt.c:384-428 | What the option string allows in the first call, it allows in all, but for its own first character |
| `Getopt.OrderedScansMoveNothing` | src/lib/libipfix/libmisc/getopt.c:599-608 | Without permuting, what was taken and what was left are the arguments as they were |
| `Getopt.WhereOrderedScansEnd` | src/lib/libipfix/libmisc/getopt.c:599-608 | Where order is required the scan ends at the first non-option, or behind the first double dash, or with the arguments; where elements are returned in order only a double dash leaves any |
| `Getopt.LeadingCharacterBecomesAnOption` | src/lib/libipfix/libmisc/getopt.c:384-428 | The character that selects the order is dropped for the first call only, and is an option in later ones |
| `Getopt.Exchange` | src/lib/libipfix/libmisc/getopt.c:302-360 | Repeated block swaps are exactly the rotation that keeps the order inside both blocks |
| `Getopt.Scanner.Next` | src/lib/libipfix/libmisc/getopt.c:540-963 | One call keeps the list arranged and gives the next report of the scan, or its end |
| `Getopt.ParseIsPermutation` | src/lib/libipfix/libmisc/getopt.c:510-963 | Options and non-options together are the arguments, none lost or doubled |
| `HashTable.Run` | src/lib/libipfix/libmisc/hashtable.c:71-211 | For every run of insertions of new keys, removals and searches, the answers are those of a finite map |
| `HashTable.Hashtable.Insert` | src/lib/libipfix/libmisc/hashtable.c:137-159 | The map gains one pair; the table grows when the count passes the load limit |
| `HashTable.Hashtable.Remove` | src/lib/libipfix/libmisc/hashtable.c:181-211 | The map loses the key, and the value is returned |
| `HashTable.Hashtable.Search` | src/lib/libipfix/libmisc/hashtable.c:163-178 | The one bucket searched holds the key if any does |
| `HashTable.Hashtable.Expand` | src/lib/libipfix/libmisc/hashtable.c:71-99 | Expansion keeps the multiset of entries, each in the bucket of its hash in the new table |
| `HashTable.LoadLimitIs` | src/lib/libipfix/libmisc/hashtable.c:25-51 | The load limit is 65 hundredths of the size, rounded up |
| `HashTable.Hashtable.KeyIsInItsBucket` | src/lib/libipfix/libmisc/hashtable_private.h:32-35 | A key of the map is in the one bucket that its hash modulo the length selects |
| `TimerQueue.OrderedByDeadline` | src/lib/libipfix/libmisc/mpoll.c:78-128 | The list is sorted by real deadline although microseconds may stand at 1000000 |
| `TimerQueue.TiesInStartOrderIff` | src/lib/libipfix/libmisc/mpoll.c:78-128 | Equal deadlines stand in start order exactly unless the later timer has 1000000 microseconds and the earlier none |
| `TimerQueue.Run` | src/lib/libipfix/libmisc/mpoll.c:78-182 | Over every run of starts, stops and expiries in which the clock does not go back: every timer started is at the end fired, cancelled or left, once; those fired are before the clock of the last expiry in the order the code compares in, and those left are not; they fire in list order, which is by deadline and, among equal deadlines, as TiesInStartOrderIff says, across expiries too |
| `TimerQueue.TieOutOfOrder` | src/lib/libipfix/libmisc/mpoll.c:89-104 | Two timers for which they do not |
| `TimerQueue.Queue.StartMicroseconds` | src/lib/libipfix/libmisc/mpoll.c:78-104 | The deadline is exactly now plus the delay, and the timer stands after all that are not later |
| `TimerQueue.Queue.Stop` | src/lib/libipfix/libmisc/mpoll.c:131-141 | The timer leaves the list if it is there; nothing else changes |
| `TimerQueue.Queue.Next` | src/lib/libipfix/libmisc/mpoll.c:144-163 | The time left to the first deadline, or zero when it has passed |
| `TimerQueue.Queue.Expire` | src/lib/libipfix/libmisc/mpoll.c:165-182 | Timers fire in list order: exactly those before now in the order the code compares in, so none with a deadline after now, and none with one before now is left |
| `TemplateBuffer.ResultFitsIff` | src/lib/libipfix/lib/ipfix_col.c:1943-2012 | With the buffer of ten characters a field that every write is cut at, the result names the fields of the template, and is its canonical string, exactly when that string has fewer than ten characters a field |
| `TemplateBuffer.ResultIsCanonical` | src/lib/libipfix/lib/ipfix_col.c:1943-2012 | Two templates whose strings fit get the same string exactly when they have the same set of enterprise and element numbers |
| `TemplateBuffer.FewEnterprisesFit` | src/lib/libipfix/lib/ipfix_col.c:1950-1955 | The string fits whenever there are two fields or more for each enterprise other than 0 |
| `TemplateBuffer.StandardFieldsFit` | src/lib/libipfix/lib/ipfix_col.c:1950-1955 | So it always fits when all fields are of enterprise 0 |
| `TemplateBuffer.LoneFieldIsCut` | src/lib/libipfix/lib/ipfix_col.c:1964-1967 | A template of one field with an eight-digit enterprise number gets the bare mark, whatever its element |
| `TemplateBuffer.WrittenCut` | src/lib/libipfix/lib/ipfix_col.c:1964-1990 | Whatever does not fit comes out cut to one character less than the room; with no underscore behind it, or one, or past the buffer, as none of the appended underscores stands where it leaves no room for another, or one, or more |
| `TemplateBuffer.OverrunIff` | src/lib/libipfix/lib/ipfix_col.c:1964-1990 | The buffer is written past exactly if two such underscores or more are appended, and never if the string fits |
| `TemplateBuffer.LongTemplatesOverrunIff` | src/lib/libipfix/lib/ipfix_col.c:1943-2012 | Of the templates whose fields have different eight-digit enterprise numbers and four-digit elements, exactly those of six fields and more overrun the buffer; with three to five the cut string ends in an underscore |
| `TemplateBuffer.SixFieldsOverrun` | src/lib/libipfix/lib/ipfix_col.c:1943-2012 | A template of six fields that overruns it |
| `TemplateBuffer.CutNamesLess` | src/lib/libipfix/lib/ipfix_col.c:1943-2012 | No strict prefix of it does, with or without an underscore behind it |
| `TemplateIdent.IdentIsSorted` | src/lib/libipfix/lib/ipfix_col.c:1943-2012 | The string that fits is that of the fields in ascending order without repetitions: element numbers, with a v and the enterprise's number before the first of each enterprise |
| `TemplateIdent.DigitIs` | src/lib/libipfix/lib/ipfix_col.c:1943-2012 | Numbers in it are written in small hexadecimal digits |
| `TemplateBuffer.GetTemplateIdent` | src/lib/libipfix/lib/ipfix_col.c:1943-2012 | The nested selection loops end and leave that result, which is the canonical string exactly when it fits |
| `Pipeline.Run` | src/dragonfly-lib.c:244-267 | For every interleaving of callers and analyzers, what loop() has been called with is, in order, the values of the events that the analyzer's turns took, without those whose packed form fills the buffer |
| `Pipeline.NothingElseIsLost` | src/dragonfly-lib.c:244-267 | Until a queue is cancelled, everything passed for its analyzer has been taken in order or still waits |
| `Pipeline.TurnsTake` | src/dragonfly-lib.c:739-784 | Each further turn takes exactly one event while some wait |
| `Pipeline.Drained` | src/dragonfly-lib.c:739-784 | As many turns as events wait take everything passed |
| `Pipeline.Engine.AnalyzeEvent` | src/dragonfly-lib.c:244-267 | Packs both arguments and sends them to the first analyzer of that name, whatever the case of letters |
| `Pipeline.Engine.AnalyzerTurn` | src/dragonfly-lib.c:739-784 | A message that fills the buffer is skipped; any other unpacks without error and its last value, and nothing else, is added to the calls of loop() |
| `Pipeline.Engine.Recv` | src/lib/msgqueue/msgqueue.c:229-313 | The length read first delimits the message that was sent |
| `Pipeline.Engine.Send` | src/lib/msgqueue/msgqueue.c:179-224 | A length and the message, cut at 32768 bytes, in one write |
| `Pipeline.UnpackWhole` | src/lib/lua-cmsgpack/lua_cmsgpack.c:850-852 | A whole message unpacks to the name and what was passed |
| `Pipeline.SameNameIff` | src/dragonfly-lib.c:244-267 | Names are the same exactly if they are equally long up to their NULs and each pair of bytes there is equal, or equal letters but for case |
| `Pipeline.GivenIff` | src/dragonfly-lib.c:739-784 | An event is given to loop() exactly if its packed form takes fewer than 32768 bytes |

## Left out

- Doubles: their bytes are opaque, so neither rounding of integers above 2^53 nor equality of integer-valued doubles with integers is modelled.
- Tables as table keys, which Lua compares by reference; keys are scalars.
- MsgPackRoundTrip.RoundTrip: leaves out NULL userdata as a table key; MsgPackRoundTrip.DecodesIff says what becomes of it.
- MessagePack strings and tables of 2^32 elements and more, and overflow of buffer sizes.
- MsgPackCursor.MpCur.DecodeType: where the cursor stands after an error is not stated, because 32-bit lengths are consumed before a missing body is noticed and the error is raised at once.
- JSON settings other than the defaults; linear buffer growth; texts whose buffers reach 2^31 bytes.
- JsonRoundTrip.RoundTrip: leaves out floats, whose printing and reading belong to the C library.
- JsonPrinter.MeasureArray: requires integer keys below 2^31, because larger ones overflow the C int that holds the maximum.
- JSON light userdata other than NULL, the text of error messages, and limits of the Lua stack.
- IPFIX exporter over SCTP, TCP or TLS, reconnection, several collectors, the NetFlow 9 version, and option templates without scope fields.
- IpfixExporter.Exporter.Export: requires that fixed-length values fill their fields and that a record is longer than four bytes and has at most 1396, because the code does not check it; a shorter value is read differently (IpfixLimits.ReadBackIff), a record of four bytes or less is not read if it is the last of its set (IpfixLimits.AllRecordsReadIff), and a longer one is written past the buffer (IpfixExporter.RecordOverrunsIff).
- Fields that the exporter relays without encoding, and big-endian hosts.
- The clocks: export times and the age at which a template is sent again are parameters.
- IPFIX collector sources: one table of templates is modelled; the code keeps one for each address and observation domain. Expiry of templates and the exporters that records are handed to are not modelled.
- IpfixCollector.DecodeValue: where the code would read beyond the message the result is an overrun, and for a record of no bytes, which the code reads for ever, ParseDataSet returns Endless; `IpfixLimits` says when.
- FlowCache.Run: the counts of the list are numbers without bound; the code keeps them in C ints, which FlowCache.IntsHoldCounts accounts for.
- TemplateBuffer.ResultIsCanonical: requires that both strings fit, because cut strings of different templates can be equal (TemplateBuffer.LoneFieldIsCut).
- The initiator mark of flows in a cache without links, which nothing reads.
- Flow timestamps, timeouts, fragments, flows that are their own reverse, the export of flows, and the node free list: what the memory of a new node held is a parameter of each packet.
- HashTable.Hashtable.Insert: requires a new key and that allocation succeeds, so the reallocation fallback is left out; the load limit is computed exactly rather than in single precision.
- Long options; Getopt.ScanAll requires an option string without `W;`, for which the code reads the list of long options that a scan for short ones does not have. An index that the caller sets back, error messages and the difference between `?` and `:` are left out.
- TimerQueue.Queue.Expire: is for callbacks that start no timers, because with them the loop need not end; negative delays are left out.
- TemplateBuffer.GetTemplateIdent: where the code writes past its buffer the result is an overrun; the copy into the caller's buffer is left out; it requires element numbers in 1..0x7FFF and enterprise numbers below 0x7FFFFFFF, which the selection loops start from.
- Linked lists are sequences, so pointers, memory freeing and aliasing between nodes are not modelled.
- Pipeline.Engine.Recv: the pipe is a FIFO of whole writes with one reader and complete reads; a turn is taken only when a message waits. Signals, barriers, statistics and the Lua scripts are left out.
- Packed messages of 2^31 bytes and more, whose length does not fit a C int.
