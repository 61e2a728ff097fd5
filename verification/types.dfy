/**
  The value types of the gomarc21 codec (Marc21Types.go): the reserved
  delimiter bytes, the fixed lengths of the binary layout, and one datatype
  per entity of a decoded MARC 21 record.

  Go's `string` and `[]byte` are both byte strings; both are modelled by
  `Bytes`, a sequence of `Byte`, where a `Byte` is a character below 256.
 */
module MarcTypes {

  type Byte = c: char | c as int < 256
  type Bytes = seq<Byte>

  /** A tag is Go's `type Tag string`: any byte string, checked only by `NewTag`. */
  type Tag = Bytes

  const SPACE: Byte := 0x20 as char
  const END_OF_RECORD: Byte := 0x1D as char
  const END_OF_FIELD: Byte := 0x1E as char
  const SUBFIELD_INDICATOR: Byte := 0x1F as char
  const DIRECTORY_ENTRY_LEN: nat := 12
  const LEADER_LEN: nat := 24
  const MAX_RECORD_LEN: nat := 99999

  /** The three reserved delimiters differ from each other and lie below '0',
      so none of them is a byte that a tag may contain. */
  lemma DelimitersAreReserved()
    ensures END_OF_RECORD != END_OF_FIELD && END_OF_FIELD != SUBFIELD_INDICATOR
         && END_OF_RECORD != SUBFIELD_INDICATOR
    ensures END_OF_RECORD < '0' && END_OF_FIELD < '0' && SUBFIELD_INDICATOR < '0'
  {
  }

  /** Why a Go function returned a non-nil error. */
  datatype Error =
    | NotANumber                // strconv.Atoi: syntax or range error
    | IncompleteLeader          // leader is not 24 bytes
    | BadRecordLength           // leader bytes 0-4 are not a decimal
    | BadDataOffset             // leader bytes 12-16 are not a decimal
    | InvalidRecordLength(cause: Error)  // ParseLeader's wrapping of a leader error
    | BadTagLength              // tag is not 3 bytes
    | InvalidTagBytes           // a tag byte lies outside '0'..'z'
    | InvalidControlTag         // "00" followed by a byte outside '1'..'z'
    | InvalidDataTag
    | BadEntryLength            // directory entry is not 12 bytes
    | TagIsInvalid              // directory entry tag rejected
    | FieldLengthIsInvalid
    | StartingPositionIsInvalid
    | ControlTagIssue           // ParseControlFields: IsControlTag failed
    | WrongFieldType            // ParseDataFields: IsControlTag failed
    | FieldTerminatorNotFound   // a data field slice does not end in END_OF_FIELD
    | EndOfStream               // the reader had nothing more to give (io.EOF)
    | RecordTooShort
    | RecordTooLong
    | RecordTerminatorNotFound
    | LeaderUndefined
    | InvalidTagString          // MakeDataField: tag rejected
    | UseMakeControlField       // MakeDataField: tag is a control tag
    | InvalidIndicators
    | BadSubFieldsLength

  /** Where a Go program would panic with an index or slice out of range. */
  datatype Site =
    | LeaderSlice               // rawRec[:24] in ParseRecord
    | DirectoryIndex            // rawRec[i] in ParseDirectory
    | DirectorySlice            // rawRec[i:i+12] in ParseDirectory
    | ControlFieldSlice         // rawRec[start:start+FieldLength]
    | ControlFieldLastByte      // b[len(b)-1] on an empty control slice
    | DataFieldSlice
    | DataFieldLastByte
    | DataFieldIndicator        // b[1] on a one-byte data slice
    | DataFieldSubfields        // b[2:FieldLength-1] on a two-byte data slice
    | LeaderPatch               // ldr[i+12] on a too-short leader template

  /** The outcome of a Go call: a value, a returned error, or a runtime panic. */
  datatype Result<+T> = Ok(value: T) | Err(error: Error) | Panic(site: Site) {
    predicate IsFailure() {
      !Ok?
    }
    function PropagateFailure<U>(): Result<U>
      requires !Ok?
    {
      if Err? then Err(error) else Panic(site)
    }
    function Extract(): T
      requires Ok?
    {
      value
    }
  }

  datatype Option<+T> = None | Some(value: T)

  datatype ControlField = ControlField(tag: Tag, data: Bytes)

  datatype SubField = SubField(code: Bytes, data: Bytes)

  datatype DataField = DataField(tag: Tag, indicator1: Bytes, indicator2: Bytes,
                                 subFields: seq<SubField>)

  /** The 24-byte leader: the raw bytes and the fields decoded from them. */
  datatype Leader = Leader(
    raw: Bytes,
    recordLength: int,          // 0-4
    recordStatus: Byte,         // 5
    typeOfRecord: Byte,         // 6
    bibLevel: Byte,             // 7
    typeOfControl: Byte,        // 8
    charCodingScheme: Byte,     // 9
    indicatorCount: Byte,       // 10
    subfieldCodeCount: Byte,    // 11
    baseAddressOfData: int,     // 12-16
    encodingLevel: Byte,        // 17
    descrCatForm: Byte,         // 18
    multipartLevel: Byte,       // 19
    lengthOfFieldPortion: Byte, // 20
    lengthOfStartingCharPositionPortion: Byte,   // 21
    lengthOfImplementationDefinedPortion: Byte,  // 22
    undefined: Byte)            // 23

  /** Go's zero value `Leader{}`: no raw bytes, every number and byte zero. */
  const ZeroLeader: Leader := Leader([], 0, 0 as char, 0 as char, 0 as char, 0 as char,
                                     0 as char, 0 as char, 0 as char, 0, 0 as char, 0 as char,
                                     0 as char, 0 as char, 0 as char, 0 as char, 0 as char)

  datatype DirectoryEntry = DirectoryEntry(raw: Bytes, tag: Tag, fieldLength: int,
                                           startingPosition: int)

  datatype Record = Record(raw: Bytes, leader: Leader, entries: seq<DirectoryEntry>,
                           controlFields: seq<ControlField>, dataFields: seq<DataField>)
}
