/**
  The older leader decoder and the record-format classifiers of
  marc21/Marc21Leader.go.  Its `NewLeader` never refuses 24 bytes: numeric
  parts that do not parse become -1, and only the base-address failure
  survives in the returned error.
 */
module LegacyLeader {
  import opened MarcTypes
  import opened Decimal
  import Leaders

  /** Go's pair `(error, Leader)`. */
  datatype LegacyOutcome = LegacyOutcome(err: Option<Error>, leader: Leader)

  /** The numeric value of a part, or the sentinel -1 when `Atoi` refuses it. */
  function ValueOrSentinel(part: Bytes): (v: int)
    ensures Atoi(part).Ok? ==> v == Atoi(part).value
    ensures !Atoi(part).Ok? ==> v == -1
  {
    match Atoi(part)
    case Ok(n) => n
    case _ => -1
  }

  /** marc21 `NewLeader`. The error from bytes 0-4 is overwritten by the one
      from bytes 12-16, so it reaches the caller only as the -1 record length. */
  function LegacyNewLeader(b: Bytes): (r: LegacyOutcome)
    ensures |b| != 24 ==> r == LegacyOutcome(Some(IncompleteLeader), ZeroLeader)
    ensures |b| == 24 ==> (r.err.Some? <==> !Atoi(b[12..17]).Ok?)
    ensures |b| == 24 && r.err.Some? ==> r.err.value == BadDataOffset
    ensures |b| == 24 ==> && r.leader.raw == b
                          && r.leader.recordLength == ValueOrSentinel(b[0..5])
                          && r.leader.baseAddressOfData == ValueOrSentinel(b[12..17])
                          && Leaders.CopiesFixedBytes(r.leader, b)
  {
    if |b| != 24 then LegacyOutcome(Some(IncompleteLeader), ZeroLeader)
    else
      var recordLen := ValueOrSentinel(b[0..5]);
      var offset := ValueOrSentinel(b[12..17]);
      var err := if Atoi(b[12..17]).Ok? then None else Some(BadDataOffset);
      LegacyOutcome(err, Leader(b, recordLen, b[5], b[6], b[7], b[8], b[9], b[10], b[11],
                                offset, b[17], b[18], b[19], b[20], b[21], b[22], b[23]))
  }

  /** Wherever both decoders accept the bytes they agree on every field. */
  lemma LegacyAgreesWithNewLeader(b: Bytes)
    requires Leaders.NewLeader(b).Ok?
    ensures LegacyNewLeader(b) == LegacyOutcome(None, Leaders.NewLeader(b).value)
  {
  }

  /** A leader whose record length is not a number but whose base address is:
      the legacy decoder reports no error at all, only a record length of -1. */
  lemma LostRecordLength(b: Bytes)
    requires |b| == 24 && !Atoi(b[0..5]).Ok? && Atoi(b[12..17]).Ok?
    ensures LegacyNewLeader(b).err == None && LegacyNewLeader(b).leader.recordLength == -1
    ensures Leaders.NewLeader(b) == Err(BadRecordLength)
  {
  }

  /** An instance: letters in place of the record length. */
  lemma LostRecordLengthError()
    ensures var b: Bytes := "xxxxxcz  a2200157n  4500";
            LegacyNewLeader(b).err == None && LegacyNewLeader(b).leader.recordLength == -1
  {
    var b: Bytes := "xxxxxcz  a2200157n  4500";
    assert b == "xxxxx" + "cz  a22" + "00157" + "n  4500";
    Leaders.NumberParts("xxxxx", "cz  a22", "00157", "n  4500");
    assert !IsDigit('x');
    Leaders.AtoiOfSampleOffset();
    LostRecordLength(b);
  }

  /** The record formats, numbered as Go's `iota` constants. */
  const BIBLIOGRAPHY: int := 0
  const HOLDINGS: int := 1
  const AUTHORITY: int := 2
  const CLASSIFICATION: int := 3
  const COMMUNITY: int := 4
  const FORMAT_UNKNOWN: int := 5

  /** The type-of-record codes that denote a bibliographic record. */
  const BIBLIOGRAPHIC_TYPES: Bytes := "acdefgijkmoprt"
  const HOLDINGS_TYPES: Bytes := "uvxy"

  /** `RecordFormat`: the format named by leader byte 6, the type of record. */
  function RecordFormat(rec: Record): (f: int)
    ensures BIBLIOGRAPHY <= f <= FORMAT_UNKNOWN
    ensures f == COMMUNITY <==> rec.leader.typeOfRecord == 'q'
    ensures f == AUTHORITY <==> rec.leader.typeOfRecord == 'z'
    ensures f == CLASSIFICATION <==> rec.leader.typeOfRecord == 'w'
    ensures f == HOLDINGS <==> rec.leader.typeOfRecord in HOLDINGS_TYPES
    ensures f == BIBLIOGRAPHY <==> rec.leader.typeOfRecord in BIBLIOGRAPHIC_TYPES
  {
    var code := rec.leader.typeOfRecord;
    if code == 'q' then COMMUNITY
    else if code == 'z' then AUTHORITY
    else if code == 'w' then CLASSIFICATION
    else if code in HOLDINGS_TYPES then HOLDINGS
    else if code in BIBLIOGRAPHIC_TYPES then BIBLIOGRAPHY
    else FORMAT_UNKNOWN
  }

  const MARC_FORMAT_NAME: map<int, Bytes> := map[
    BIBLIOGRAPHY := "Bibliography",
    HOLDINGS := "Holdings",
    AUTHORITY := "Authority",
    CLASSIFICATION := "Classification",
    COMMUNITY := "Community Information",
    FORMAT_UNKNOWN := "Unknown"]

  /** `RecordFormatName`: the name of the record's format; every format has one. */
  function RecordFormatName(rec: Record): (name: Bytes)
    ensures name != []
    ensures name == "Unknown" <==> RecordFormat(rec) == FORMAT_UNKNOWN
    ensures name == "Bibliography" <==> RecordFormat(rec) == BIBLIOGRAPHY
    ensures name == "Holdings" <==> RecordFormat(rec) == HOLDINGS
    ensures name == "Authority" <==> RecordFormat(rec) == AUTHORITY
    ensures name == "Classification" <==> RecordFormat(rec) == CLASSIFICATION
    ensures name == "Community Information" <==> RecordFormat(rec) == COMMUNITY
  {
    var f := RecordFormat(rec);
    assert f in MARC_FORMAT_NAME;
    MARC_FORMAT_NAME[f]
  }

  const MATERIAL_TYPE_LABEL: map<Bytes, Bytes> := map[
    "BK" := "Books",
    "CF" := "Computer Files",
    "MP" := "Maps",
    "MU" := "Music",
    "CR" := "Continuing Resources",
    "VM" := "Visual Materials",
    "MX" := "Mixed Materials"]

  /** The direct type-of-record to material-type table. */
  function DirectMaterialType(rectype: Byte): Option<Bytes> {
    if rectype in "cdij" then Some("MU")
    else if rectype in "ef" then Some("MP")
    else if rectype in "gkor" then Some("VM")
    else if rectype == 'm' then Some("CF")
    else if rectype == 'p' then Some("MX")
    else None
  }

  /** `BibliographyMaterialType`: the code and label of the material a
      bibliographic record describes, from leader bytes 6 and 7; both empty
      when no rule applies. */
  function BibliographyMaterialType(rec: Record): (r: (Bytes, Bytes))
    ensures DirectMaterialType(rec.leader.typeOfRecord).Some? ==>
              r.0 == DirectMaterialType(rec.leader.typeOfRecord).value
    ensures r.0 == "BK" <==> rec.leader.bibLevel in "acdm" && rec.leader.typeOfRecord in "at"
    ensures r.0 == "CR" <==> rec.leader.bibLevel in "bis" && rec.leader.typeOfRecord == 'a'
    ensures r.0 == [] <==> r.1 == []
    ensures r.0 != [] ==> r.0 in MATERIAL_TYPE_LABEL && r.1 == MATERIAL_TYPE_LABEL[r.0]
    ensures && DirectMaterialType(rec.leader.typeOfRecord).None?
            && !(rec.leader.bibLevel in "acdm" && rec.leader.typeOfRecord in "at")
            && !(rec.leader.bibLevel in "bis" && rec.leader.typeOfRecord == 'a')
            ==> r == ([], [])
  {
    var rectype := rec.leader.typeOfRecord;
    var biblevel := rec.leader.bibLevel;
    var code: Bytes :=
      if DirectMaterialType(rectype).Some? then DirectMaterialType(rectype).value
      else if biblevel in "acdm" then (if rectype == 'a' || rectype == 't' then "BK" else [])
      else if biblevel in "bis" then (if rectype == 'a' then "CR" else [])
      else [];
    var description := if code in MATERIAL_TYPE_LABEL then MATERIAL_TYPE_LABEL[code] else [];
    (code, description)
  }

  /** Only bibliographic records are given a material type. */
  lemma MaterialTypeOnlyForBibliography(rec: Record)
    requires BibliographyMaterialType(rec).0 != []
    ensures RecordFormat(rec) == BIBLIOGRAPHY
  {
  }
}
