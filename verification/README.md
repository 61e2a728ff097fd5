# gomarc21 binary record codec, modelled in Dafny

This project models the MARC 21 binary record codec of the `gomarc21` Go
package. MARC 21 is the Library of Congress profile of ISO 2709. A record
has four parts:

- a 24-byte leader, with the record length at positions 0-4 and the base
  address of data at 12-16;
- a directory of 12-byte entries (tag, four-digit field length, five-digit
  starting position), closed by the field terminator 0x1E;
- control fields and data fields, each ending in 0x1E;
- the record terminator 0x1D.

Inside a data field, each subfield is the delimiter 0x1F, a code byte and
the data.

Every function is pure and works on `Bytes = seq<Byte>`, where `Byte` is a
`char` below 256. Go's `string` and `[]byte` are both modelled as `Bytes`.
Each Go function that can fail returns a `Result`:

- `Ok(value)` on success;
- `Err(error)` for a Go error, one constructor per error message;
- `Panic(site)` where Go's slicing or indexing would panic, one constructor
  per site.

Modules follow the source files:

- `MarcTypes` (types.dfy): constants and entity datatypes, from
  Marc21Types.go.
- `Decimal`: `strconv.Atoi` and `%0Nd`.
- `ByteStrings`: `bytes.Split` and its inverse, `strings.Contains`, ASCII
  `strings.ToLower`, and `string(b)` of one byte.
- `Tags`: pkg/marc21/Marc21Tag.go.
- `Leaders`: Marc21Leader.go.
- `LegacyLeader`: marc21/Marc21Leader.go.
- `Directory`: Marc21RecordDirectory.go and `ParseDirectory`.
- `Fields`: Marc21ControlField.go, Marc21DataField.go and
  pkg/marc21/Marc21SubFieldList.go.
- `SubFieldFormat`: the subfield layout and both readers of it.
- `FieldMaker`: pkg/marc21/Marc21Field.go.
- `RecordParser`: `ParseLeader`, `ParseControlFields`, `ParseDataFields`,
  `ParseRecord` and the framing checks of `NextRecord`.
- `RecordQuery`: `GetDatafields` and `ControlNum`.
- `Layout`: the offset and directory arithmetic of `RecordAsMARC`.
- `Assembler`: `RecordAsMARC` as written.
- `IntendedAssembler`: the corrected encoder. It is proved to round-trip
  through `NextRecord` and `ParseRecord`.

The getters (`GetRaw`, `GetTag`, `GetData`, `GetCode`, `GetValue`,
`GetRecordLength`, `GetBaseAddressOfData`) return a stored value unchanged
and are modelled as plain projections. The leader and directory getters are
tied to the decoders by `Leaders.DecodedLeaderText`, `Leaders.SampleNumbers`
and `Directory.EntryGetters`.

## Model

| member | source | states |
|---|---|---|
| MarcTypes.DelimitersAreReserved | Marc21Types.go:9-11 | The three delimiters are distinct. All three lie below '0', so no tag byte can be a delimiter. |
| Decimal.Atoi | Marc21Leader.go:40-53 | `strconv.Atoi`: an optional sign, then at least one digit. Digits alone give their value, as does '+' before them; '-' negates. Anything else fails with NotANumber, including "" and "-". Up to 18 digits always parse. |
| Decimal.AtoiSignedExamples | Marc21Leader.go:40 | "-0001" reads as -1 and "+7" as 7. |
| Decimal.AtoiRefusesExamples | Marc21Leader.go:40-46 | "", "-" and " 350" are refused. |
| Decimal.ZeroPad | Marc21Record.go:382-383 | `%0Nd` has the value n, consists of digits only, and has width N unless n needs more digits. |
| Decimal.AtoiOfZeroPad | Marc21Record.go:388-389 | `Atoi` reads back every zero-padded number. |
| Decimal.DigitsLength | Marc21Record.go:388 | n takes at most k digits exactly when n < 10^k. This decides when `%05d` overflows its five places. |
| ByteStrings.RuneString | Marc21Record.go:133-134 | `string(b)` of a byte: the byte itself below 0x80, otherwise its two-byte UTF-8 encoding (lead byte 110xxxxx, continuation 10xxxxxx), whose payload bits decode back to the byte. |
| ByteStrings.RuneStringInjective | Marc21Record.go:133-134 | Different bytes give different strings, so an indicator or code determines the byte it came from. |
| ByteStrings.SplitJoin | Marc21Record.go:137 | `bytes.Split` cuts on every delimiter and loses nothing. No segment holds the delimiter, and joining the segments gives back the input. |
| ByteStrings.JoinSplit | Marc21Record.go:137 | Segments free of the delimiter are recovered by splitting their join. |
| ByteStrings.SplitAppend | Marc21Record.go:157 | Splitting `a`, a delimiter and `b` gives the segments of `a` followed by those of `b`. |
| ByteStrings.Contains | Marc21ControlField.go:45-54 | `strings.Contains` holds exactly when the substring occurs at some position. |
| ByteStrings.ToLower | Marc21DataField.go:97-106 | ASCII lower-casing keeps the length and maps each byte by itself. |
| ByteStrings.ToLowerIdempotent | Marc21DataField.go:97-106 | Lower-casing twice is lower-casing once. |
| Tags.NewTag | pkg/marc21/Marc21Tag.go:14-37 | Succeeds exactly on three bytes in '0'..'z' and returns them. A length error comes before the byte error. |
| Tags.NewTagByStr | pkg/marc21/Marc21Tag.go:8-12 | Accepts exactly the strings `NewTag` accepts, unchanged. |
| Tags.NewTagByStrRejectsFourBytes | pkg/Marc21Tag_test.go:9-16 | "1234" is refused for its length. |
| Tags.IsControlTag | pkg/marc21/Marc21Tag.go:43-63 | A length error unless the tag has 3 bytes. True for "00" followed by '1'..'z'. An error for "00" followed by any other byte. False, with no error, for every other three-byte tag. |
| Tags.IsDataTag | pkg/marc21/Marc21Tag.go:65-108 | True exactly on the slim-schema data-tag pattern widened to '0'..'z'. False exactly when `IsControlTag` is true. A length error for other lengths. Every other three-byte tag is refused with the data-tag error. |
| Tags.TagPartition | pkg/marc21/Marc21Tag.go:55-108 | For a valid tag: it is a data tag exactly when it does not start "00". It is a control tag exactly when it starts "00" and is not "000". Only "000" makes both classifiers fail. When both answer, they disagree. |
| Tags.ControlAndDataExclusive | pkg/marc21/Marc21Tag.go:98-102 | No tag is both a control tag and a data tag. A control tag is not a data tag, and that answer comes with no error. |
| Leaders.NewLeader | Marc21Leader.go:35-75 | Succeeds exactly on 24 bytes whose parts 0-4 and 12-16 parse. The errors come in the source's order. On success the leader keeps the raw bytes, holds the two parsed numbers, and copies the byte at each other position. |
| Leaders.DecodedLeaderText | Marc21Leader.go:77-83 | `GetRaw` gives back the decoded bytes. `String` is "=LDR  " followed by those 24 bytes. |
| Leaders.SampleNumbers | Marc21Leader.go:85-93 | A leader with "00350" at 0-4 and "00157" at 12-16 decodes. `GetRecordLength` is 350, `GetBaseAddressOfData` is 157, and `GetRaw` gives back the input. |
| Leaders.SampleAuthorityLeader | Marc21Leader_test.go:8-16 | "00350cz  a2200157n  4500" decodes with record length 350 and its raw text unchanged. |
| LegacyLeader.LegacyNewLeader | marc21/Marc21Leader.go:90-130 | A length error and the zero leader unless the input has 24 bytes. Otherwise a number that does not parse becomes -1. An error is returned exactly when the base address does not parse. The fixed bytes and the raw input are copied. |
| LegacyLeader.LegacyAgreesWithNewLeader | marc21/Marc21Leader.go:90-130 | On every leader the current decoder accepts, the legacy decoder gives no error and the same leader. |
| LegacyLeader.LostRecordLength | marc21/Marc21Leader.go:95-108 | A record length that does not parse next to a base address that does gives no error but a length of -1. The current decoder refuses the same input. |
| LegacyLeader.LostRecordLengthError | marc21/Marc21Leader.go:95-108 | A concrete leader whose record-length error is lost. |
| LegacyLeader.RecordFormat | marc21/Marc21Leader.go:153-168 | Lands in exactly one of the six formats. Each of q, z and w and each of the holdings and bibliographic letter sets is mapped as the switch says. |
| LegacyLeader.RecordFormatName | marc21/Marc21Leader.go:173-177 | The name of the format, never empty. Each of the six names ("Bibliography", "Holdings", "Authority", "Classification", "Community Information", "Unknown") is given exactly for its format. |
| LegacyLeader.BibliographyMaterialType | marc21/Marc21Leader.go:245-282 | The direct map wins. Otherwise BK for bib level a/c/d/m with type a/t, and CR for bib level b/i/s with type a. Code and label are empty together, and a code's label comes from the label table. When none of the three rules applies, both are empty. |
| LegacyLeader.MaterialTypeOnlyForBibliography | marc21/Marc21Leader.go:245-282 | Only bibliographic records get a material type. |
| Directory.NewDirectoryEntry | Marc21RecordDirectory.go:22-52 | Succeeds exactly on 12 bytes with a valid tag and two parts that parse. Each error is the source's, in its order: length, tag, field length, starting position. The entry holds the raw bytes, the tag and both numbers. |
| Directory.EntryGetters | Marc21RecordDirectory.go:9-21 | The getters of a decoded entry give back its raw bytes, its tag, its length and its start. |
| Directory.EntryRoundTrip | Marc21Record.go:380-384 | An entry rendered as tag, `%04d` length and `%05d` start (length ≤ 9999, start ≤ 99999) has 12 bytes. It decodes to that tag, length and start. |
| Directory.ParseDirectoryFrom | Marc21Record.go:49-64 | A successful scan describes the groups from its start up to the terminator. Failures are only the entry errors or the two panic sites. |
| Directory.ParseDirectory | Marc21Record.go:49-64 | Success means consecutive 12-byte groups from offset 24, one entry per group in order, with the first byte after them 0x1E. |
| Directory.ParseDirectoryIff | Marc21Record.go:49-64 | `ParseDirectory` returns exactly the entries of the directory laid out from offset 24 (both directions). |
| Directory.DirectoryAtParses | Marc21Record.go:51-61 | Every directory laid out from an offset is what the scan from that offset returns. |
| Fields.ControlFieldString | Marc21ControlField.go:35-37 | "=", then the tag at positions 1.., then the data after two blanks. |
| Fields.ControlFieldStringRoundTrip | Marc21ControlField.go:35-37 | The line of a control field with a three-byte tag gives back tag and data. |
| Fields.ControlFieldContains | Marc21ControlField.go:45-54 | True exactly when the tag is a control tag and the lower-cased string occurs in the lower-cased data. |
| Fields.SubFieldString | pkg/marc21/Marc21SubFieldList.go:11-13 | "$", then the code, then the data. |
| Fields.SubFieldStringRoundTrip | pkg/marc21/Marc21SubFieldList.go:11-13 | The text of a subfield with a one-byte code reads back, by `SubFieldFromString`, as the same subfield. |
| Fields.AddSubField | pkg/marc21/Marc21SubFieldList.go:25-26 | The subfield is unchanged. |
| Fields.RemoveAllSubFields | pkg/marc21/Marc21SubFieldList.go:28-29 | The subfield is unchanged. |
| Fields.ReplaceSubField | pkg/marc21/Marc21SubFieldList.go:31-32 | The subfield is unchanged. |
| Fields.GetIndicator1 | Marc21DataField.go:109-114 | Never empty: the stored indicator, or a blank when it is missing. |
| Fields.GetIndicator2 | Marc21DataField.go:117-122 | Never empty: the stored indicator, or a blank when it is missing. |
| Fields.FormatIndicator | Marc21DataField.go:124-129 | Never a blank. The identity on every value but a blank. Gives a backslash exactly for a blank or a backslash. |
| Fields.DataFieldString | Marc21DataField.go:88-94 | "=" + tag + two blanks + both formatted indicators, followed by the "$"-lines of the subfields in order. |
| Fields.SubFieldsTextAppend | Marc21DataField.go:91-93 | The subfield text of a concatenation is the concatenation of the texts. |
| Fields.SubFieldsTextSingle | Marc21DataField.go:91-93 | One subfield's text in a data field's line is its `SubFieldString`. |
| Fields.DataFieldContains | Marc21DataField.go:97-106 | True exactly when the lower-cased string occurs in the lower-cased data of some subfield. |
| Fields.DataFieldContainsEdges | Marc21DataField.go:97-106 | False with no subfields. True for the empty string when there is at least one subfield. |
| SubFieldFormat.SubFieldsRoundTrip | Marc21Record.go:137-141 | The data-field reader recovers exactly the subfields laid out with a delimiter before each code, provided codes are single bytes and the data holds no delimiter. |
| SubFieldFormat.KeepNonEmptySegments | Marc21Record.go:138-140 | Keeping non-empty segments as code + data inverts the segment layout. |
| SubFieldFormat.KeepLongerThanOneSegments | pkg/marc21/Marc21Field.go:37-41 | Keeping segments longer than one byte inverts the layout of subfields whose data is not empty. |
| SubFieldFormat.SplitAfterFirstDelimiter | pkg/marc21/Marc21Field.go:37 | Splitting the layout after its first delimiter gives one segment per subfield. |
| FieldMaker.MakeDataField | pkg/marc21/Marc21Field.go:11-43 | Succeeds exactly for a valid tag that is not a control tag ("000" passes) with at least 4 data bytes. Each error is the source's error in order. Gives the tag, the two indicators, and at most one non-empty-data subfield per segment. |
| FieldMaker.MakeDataFieldClean | pkg/marc21/Marc21Field.go:34-41 | Every subfield of a made field has non-empty data without 0x1F and a non-empty code that does not start with 0x1F. |
| FieldMaker.MakeDataFieldKeepsLayout | pkg/marc21/Marc21Field.go:34-41 | When every segment after position 3 has an ASCII code byte and data, the subfields write back as 0x1F followed by exactly those bytes: nothing is lost. |
| SubFieldFormat.KeepLongerThanOneClean | pkg/marc21/Marc21Field.go:37-41 | Subfields kept from delimiter-free segments hold no delimiter. |
| SubFieldFormat.KeepLongerThanOneLayout | pkg/marc21/Marc21Field.go:37-41 | Segments with an ASCII code byte and data become one subfield each, writing back as the segment. |
| FieldMaker.MakeDataFieldRoundTrip | pkg/marc21/Marc21Field.go:11-43 | Two ASCII indicators followed by the layout of encodable subfields with data give back exactly that field. |
| FieldMaker.MakeDataFieldDropsCodeOnly | pkg/marc21/Marc21Field.go:37-41 | A subfield with empty data is dropped, and the one before it is kept. |
| FieldMaker.GetSubFields | pkg/marc21/Marc21Field.go:46-58 | As a set, the subfields whose code occurs in the filter; as a list, a subsequence of the field's list. |
| FieldMaker.SelectByCodeSingle | pkg/marc21/Marc21Field.go:49-54 | One subfield is kept exactly when the filter holds its code. |
| FieldMaker.SelectByCodeAppend | pkg/marc21/Marc21Field.go:49-54 | Selection distributes over concatenation; with `SelectByCodeSingle` the result is every matching subfield, in order, duplicates included. |
| FieldMaker.SelectAll | pkg/marc21/Marc21Field.go:46-58 | A filter holding every code selects the whole list. |
| FieldMaker.EmptyCodeAlwaysSelected | pkg/marc21/Marc21Field.go:50 | A subfield with an empty code passes every filter. |
| RecordParser.ParseLeader | Marc21Record.go:67-75 | Succeeds exactly when `NewLeader` does, with its leader. Otherwise `NewLeader`'s error is wrapped. |
| RecordParser.ControlFieldsOkIff | Marc21Record.go:83-105 | The control-field pass succeeds exactly when every entry classifies and every control entry's slice is in range and non-empty. |
| RecordParser.ControlFieldsMembers | Marc21Record.go:88-103 | As a set, the collected fields are the control entries whose slice ends in 0x1E, each with the slice minus its last byte. Entries without the terminator are skipped. |
| RecordParser.ControlCons | Marc21Record.go:88-100 | A terminated control field goes in front of what the pass over the rest collects, with the number it now remembers and any duplicate-number anomaly. |
| RecordParser.ControlFieldsAppend | Marc21Record.go:83-105 | The pass over two directories in a row is the pass over the first, then the pass over the second from the number the first remembered: fields and anomalies concatenate in order. |
| RecordParser.DuplicateControlNumber | Marc21Record.go:93-100 | Both "001" fields are kept. A second "001" is an anomaly when the first had data. The remembered number is the first non-empty one. |
| RecordParser.DataFieldsOkIff | Marc21Record.go:117-144 | The data-field pass succeeds exactly when every entry classifies and every data entry's slice is in range, ends in 0x1E and has room for the indicators. It then returns one field per data entry. |
| RecordParser.DataFieldsMembers | Marc21Record.go:123-142 | As a set, the returned fields are those built from the data entries' slices: indicators from bytes 0 and 1, subfields from bytes 2..len-1. |
| RecordParser.DataFieldsAppend | Marc21Record.go:117-144 | The pass over two directories in a row returns the first's fields followed by the second's. With `DataPassTakes` and `DataPassSkips` this fixes the order: one field per data entry, in directory order. |
| RecordParser.UnclassifiedTagFailsBoth | Marc21Record.go:84-87 | A "000" entry makes both field passes fail. |
| RecordParser.ControlPassCollects | Marc21Record.go:83-105 | Control entries that each hold their field, followed only by data entries, are collected as exactly those fields. |
| RecordParser.DataPassCollects | Marc21Record.go:117-144 | Control entries followed by data entries that each hold their field give exactly those fields. |
| RecordParser.ParseRecord | Marc21Record.go:172-221 | Fewer than 24 bytes panic at the leader slice. On success the record holds the leader of bytes 0-23, the directory laid out from 24, and the two passes' fields read at the leader's base address. The base address is not checked against the directory. |
| RecordParser.ParseRecordParts | Marc21Record.go:172-221 | Leader, directory and both passes succeeding make the whole parse succeed with exactly their results. |
| RecordParser.NextRecord | Marc21Record.go:267-308 | Succeeds exactly when the first five bytes parse to a length in (24, 99999] that the stream covers and whose last byte is 0x1D. Then the record is that prefix and the rest follows. Too short and too long are refused before the body is read. |
| RecordParser.ShortStreamHasNoLength | Marc21Record.go:271-280 | A stream of fewer than five bytes fails on the length: the padding zeros are not digits. |
| RecordParser.FramingRoundTrip | Marc21Record.go:267-308 | A record declaring its own length, within bounds and ending in 0x1D, is cut whole off the front of any stream. |
| RecordParser.FramingCut | Marc21Record.go:291-304 | With a declared length n inside the stream, the cut is after byte n exactly when that byte is 0x1D; otherwise the terminator error. |
| RecordQuery.GetDatafields | Marc21Record.go:152-165 | All data fields for "". Otherwise, as a set, the fields whose tag is in the comma-separated list. |
| RecordQuery.GetDatafieldsSingleTag | Marc21Record.go:157-163 | A single tag selects what `FieldsWithTag` selects for it. |
| RecordQuery.FieldsWithTagSingle | Marc21Record.go:158-162 | One field is kept exactly when its tag matches. |
| RecordQuery.FieldsWithTagAppend | Marc21Record.go:158-162 | Selection distributes over concatenation; with `FieldsWithTagSingle` the result is every field with the tag, in record order. |
| RecordQuery.FieldsWithTagsAppend | Marc21Record.go:157-163 | The groups follow the tag list: the fields for `ts1 + ts2` are those for `ts1`, then those for `ts2`. |
| RecordQuery.GetDatafieldsJoin | Marc21Record.go:152-165 | For non-empty `a` and `b`, the result for "a,b" is the result for `a` followed by the result for `b`. |
| RecordQuery.GetDatafieldsRepeatedTag | Marc21Record.go:157-163 | Results are grouped by the list: naming a tag twice returns its fields twice. |
| RecordQuery.FieldsWithTagAll | Marc21Record.go:158-162 | When every field has the tag, all fields are selected in order. |
| RecordQuery.ControlNum | Marc21Record.go:29-36 | The data of the first "001" field, or "" when there is none. |
| RecordQuery.ControlNumMatchesParser | Marc21Record.go:93-100 | The decoder's remembered number agrees with `ControlNum` unless the first "001" is empty. |
| Layout.PackSlots | Marc21Record.go:339-377 | Each entry's length is its payload's, and its start is the sum of the lengths before it. |
| Layout.PackSlotsContiguous | Marc21Record.go:351-353 | Each field starts where the previous one ends. |
| Layout.FieldTags | Marc21Record.go:342-377 | Control-field tags first, then data-field tags, each in record order. |
| Layout.DirectoryBytesParse | Marc21Record.go:380-385 | A directory rendered from fitting slots and followed by 0x1E is read back by the directory scan as exactly their entries. |
| Layout.RenderSlotDecodes | Marc21Record.go:381-383 | One rendered entry decodes to its tag, length and start. |
| Layout.PatchLeader | Marc21Record.go:391-395 | Positions 0-4 get the record length and 12-16 the base address. Every other byte of the template is kept. |
| Assembler.ControlPayload | Marc21Record.go:347-348 | The packed control field is its mnemonic line, not its data, followed by 0x1E. It is 4 bytes longer than tag and data. |
| Assembler.DataPayload | Marc21Record.go:359-370 | The packed data field is the defaulted indicators and the subfields run together, followed by 0x1F. |
| Assembler.Assemble | Marc21Record.go:388-402 | An empty template is the one error and a template under 17 bytes panics. Otherwise the output is the patched template, then directory, fields and 0x1D. |
| Assembler.RecordAsMARC | Marc21Record.go:328-405 | The "leader undefined" error never occurs. It panics exactly when the raw leader is under 11 bytes. |
| Assembler.AssembledHeader | Marc21Record.go:388-395 | Positions 0-4 read as 24 + directory + fields + 1 and 12-16 as 24 + directory. The other template bytes are kept. |
| Assembler.AssembleDeclaresShort | Marc21Record.go:388-398 | With the 30-byte template, the declared length is six less than the output. |
| Assembler.AsWrittenCutsShort | Marc21Record.go:388-402 | Reading the as-written output back with `NextRecord` stops six bytes early. It succeeds exactly when the seventh byte from the end of the output is 0x1D, and then takes the output minus its last six bytes. Otherwise it fails with RecordTerminatorNotFound. |
| Assembler.TemplateCutsShort | Marc21Record.go:391-402 | Any 30-byte template's output is read six bytes short. |
| Assembler.EmptyRecordNotFramed | Marc21Record.go:391-402 | An empty record whose leader byte 19 is not 0x1D is rejected by `NextRecord`. |
| Assembler.ControlPayloadIsNotData | Marc21Record.go:347 | The packed control field never carries just its data. A three-byte tag makes it 7 bytes longer. |
| Assembler.SubFieldBoundariesLost | Marc21Record.go:365-369 | Two subfields pack to the same bytes as one subfield holding both, so the boundary cannot be recovered. |
| IntendedAssembler.EncodeRecord | Marc21Record.go:328-405 | The corrected encoder refuses a leader that is not 24 bytes and a record whose numbers do not fit. Otherwise it writes leader, directory, body and 0x1D. |
| IntendedAssembler.DataPayloadDecodes | Marc21Record.go:131-141 | The corrected data-field bytes end in 0x1E and the data-field pass reads them back as the field. |
| IntendedAssembler.SlotsFit | Marc21Record.go:380-389 | Every directory number of an encodable record fits its digits. |
| IntendedAssembler.LeaderReadsBack | Marc21Leader.go:35-75 | The patched 24-byte leader decodes with the true length and base address, and the other leader bytes are kept. |
| IntendedAssembler.DirectoryReadsBack | Marc21Record.go:49-64 | The written directory is read back as exactly the packed entries. |
| IntendedAssembler.EntriesOfRecord | Marc21Record.go:339-377 | Each entry locates its payload in the body and carries its field's tag. |
| IntendedAssembler.FieldsAt | Marc21Record.go:78-147 | Both field passes read the located payloads back as the record's control and data fields. |
| IntendedAssembler.EncodeDecode | Marc21Record.go:172-308 | Every encodable record is encoded. `NextRecord` cuts the encoding whole off any stream, and `ParseRecord` gives back its control and data fields, true length, base address and leader bytes. |

## Left out

- I/O: the `reader.Read` calls of `NextRecord` are modelled as reads from an in-memory byte sequence that hand out whatever bytes remain. `ReadRecord` and `ParseNextRecord` are stream plumbing and are left out.
- Logging: every `log.Print` is left out. The control-field anomalies that the source only logs are returned as a list.
- Command-line tools (cmd/), JSON and XML output (Marc21Json.go, Marc21XML.go, Marc21Xml.go, `RecordAsJson`, `AsJson`) and Marc21Version.go have no codec behaviour. Marc21File.go is commented out.
- Duplicate copies under pkg/marc21 and marc21 repeat the canonical files and are not modelled twice.
- `RecordType`, `CharacterCodingScheme` and `Leader.Text` use helpers that the source never defines. `pluckByte(text, 6)` and `pluckByte(text, 7)` are read as leader bytes 6 and 7.
- LegacyLeader.RecordFormat: line 167 returns `FmtUnknown`, which the source does not declare. It is read as the declared `FormatUnknown`.
- Go's `strings.ToLower` folds Unicode case. The model folds ASCII A-Z only.
- Go's `int` is 64-bit. `Atoi` rejects values outside that range, and the model bounds `Atoi`'s result the same way. Arithmetic on field positions never comes near that range.
- Go returns partly filled values next to an error (for example `MakeDataField`'s field). Only the error is modelled.
- RecordParser.FieldSlice: the slice bounds check uses the slice length where Go uses the capacity. The same holds for the leader slice `rawRec[:24]` (Marc21Record.go:177) and the directory slices `rawRec[i:i+12]` (Marc21Record.go:51-61) in `ParseRecord` and `ParseDirectory`. `NextRecord` allocates exactly the record length, so length and capacity agree for records it hands out.
- FieldMaker.GetSubFields: pkg/marc21/Marc21Field.go:52 sets `Value: sub.Value`, a field the subfield type does not have. The copy is read as taking the subfield's data.

## Findings

| source | as written | input that shows it | evidently intended | confidence | as-written member | corrected member |
|---|---|---|---|---|---|---|
| Marc21Record.go:388-398 | The leader template is `Leader.String()`, i.e. "=LDR  " + raw. The record length and base address land at the wrong bytes, and the declared length is six short of the output. | Any record with a 24-byte leader and a total under 99999 bytes: `NextRecord` stops six bytes early. It fails with RecordTerminatorNotFound unless the seventh byte from the end of the output is 0x1D, and even then it returns the output minus its last six bytes. E.g. no fields and leader byte 19 not 0x1D: `NextRecord` refuses the output. | The template is the 24 raw leader bytes, so the output declares its own length and decodes. | not executed | Assembler.AsWrittenCutsShort | IntendedAssembler.EncodeDecode |
| Marc21Record.go:347 | A control field is packed as its mnemonic line "=TAG  data" plus 0x1E. | Any control field: the packed bytes minus the terminator are never the data. | The data followed by 0x1E, as `ParseControlFields` reads it. | not executed | Assembler.ControlPayloadIsNotData | IntendedAssembler.EncodeDecode |
| Marc21Record.go:366-370 | `b = append(b)` appends nothing, so subfields are written without a leading 0x1F, and the field ends in 0x1F instead of 0x1E. | Subfields ("a","x"),("b","y") and the single subfield ("a","xby") pack to the same bytes. | Each subfield behind 0x1F, the field ended by 0x1E, as `ParseDataFields` splits it. | not executed | Assembler.SubFieldBoundariesLost | IntendedAssembler.DataPayloadDecodes |
| marc21/Marc21Leader.go:95-108 | `err` from the record-length parse is overwritten by the base-address parse. | "xxxxxcz  a2200157n  4500" gives no error and record length -1. | Report the record-length error, as Marc21Leader.go does. | not executed | LegacyLeader.LostRecordLength | Leaders.NewLeader |
