/**
  The record leader (Marc21Leader.go): the first 24 bytes of a record, with
  the record length at positions 0-4, the base address of data at 12-16, and
  one coded byte at each other position.
 */
module Leaders {
  import opened MarcTypes
  import opened Decimal

  /** The leader fields that are single bytes equal the input bytes at
      positions 5-11 and 17-23. */
  predicate CopiesFixedBytes(l: Leader, b: Bytes)
    requires |b| == 24
  {
    && l.recordStatus == b[5] && l.typeOfRecord == b[6] && l.bibLevel == b[7]
    && l.typeOfControl == b[8] && l.charCodingScheme == b[9]
    && l.indicatorCount == b[10] && l.subfieldCodeCount == b[11]
    && l.encodingLevel == b[17] && l.descrCatForm == b[18] && l.multipartLevel == b[19]
    && l.lengthOfFieldPortion == b[20] && l.lengthOfStartingCharPositionPortion == b[21]
    && l.lengthOfImplementationDefinedPortion == b[22] && l.undefined == b[23]
  }

  /** `NewLeader`: exactly 24 bytes whose positions 0-4 and 12-16 both pass
      `Atoi`; the record length is checked first. */
  function NewLeader(b: Bytes): (r: Result<Leader>)
    ensures r.Ok? <==> |b| == 24 && Atoi(b[0..5]).Ok? && Atoi(b[12..17]).Ok?
    ensures |b| != 24 ==> r == Err(IncompleteLeader)
    ensures |b| == 24 && !Atoi(b[0..5]).Ok? ==> r == Err(BadRecordLength)
    ensures |b| == 24 && Atoi(b[0..5]).Ok? && !Atoi(b[12..17]).Ok? ==> r == Err(BadDataOffset)
    ensures r.Ok? ==> && r.value.raw == b
                      && r.value.recordLength == Atoi(b[0..5]).value
                      && r.value.baseAddressOfData == Atoi(b[12..17]).value
                      && CopiesFixedBytes(r.value, b)
  {
    if |b| != 24 then Err(IncompleteLeader)
    else
      match Atoi(b[0..5])
      case Ok(recordLen) =>
        (match Atoi(b[12..17])
         case Ok(offset) =>
           Ok(Leader(b, recordLen, b[5], b[6], b[7], b[8], b[9], b[10], b[11], offset,
                     b[17], b[18], b[19], b[20], b[21], b[22], b[23]))
         case _ => Err(BadDataOffset))
      case _ => Err(BadRecordLength)
  }

  const LEADER_PREFIX: Bytes := "=LDR  "

  /** `Leader.String`: the mnemonic line "=LDR  " followed by the raw bytes. */
  function LeaderString(l: Leader): Bytes {
    LEADER_PREFIX + l.raw
  }

  /** `Leader.GetRaw`. */
  function GetRaw(l: Leader): Bytes {
    l.raw
  }

  /** `Leader.GetRecordLength`. */
  function GetRecordLength(l: Leader): int {
    l.recordLength
  }

  /** `Leader.GetBaseAddressOfData`. */
  function GetBaseAddressOfData(l: Leader): int {
    l.baseAddressOfData
  }

  /** A decoded leader hands back its input unchanged, and its mnemonic line
      holds leader byte `k` at position `k + 6` (the template the assembler
      patches), never empty. */
  lemma DecodedLeaderText(b: Bytes)
    requires NewLeader(b).Ok?
    ensures GetRaw(NewLeader(b).value) == b
    ensures |LeaderString(NewLeader(b).value)| == 30
    ensures forall k | 0 <= k < 24 :: LeaderString(NewLeader(b).value)[k + 6] == b[k]
    ensures LeaderString(NewLeader(b).value)[..6] == "=LDR  "
  {
  }

  lemma AtoiOfSampleLength()
    ensures Atoi("00350") == Ok(350)
  {
    AtoiPaddedExample();
  }

  lemma AtoiOfSampleOffset()
    ensures Atoi("00157") == Ok(157)
  {
    assert Unsigned("00157") == "00157";
    assert DigitsValue("00157") == 157 by {
      assert "00157"[..4] == "0015";
      assert "0015"[..3] == "001";
      assert "001"[..2] == "00";
      assert "00"[..1] == "0";
      assert "0"[..0] == "";
    }
  }

  /** Any 24 bytes whose numeric parts read "00350" and "00157" decode to
      record length 350 and base address 157. */
  lemma SampleNumbers(b: Bytes)
    requires |b| == 24 && b[0..5] == "00350" && b[12..17] == "00157"
    ensures NewLeader(b).Ok?
    ensures GetRecordLength(NewLeader(b).value) == 350
    ensures GetBaseAddressOfData(NewLeader(b).value) == 157
    ensures GetRaw(NewLeader(b).value) == b
  {
    AtoiOfSampleLength();
    AtoiOfSampleOffset();
  }

  /** The numeric parts of a leader laid out as length, seven bytes, base
      and the rest. */
  lemma NumberParts(len: Bytes, mid: Bytes, base: Bytes, rest: Bytes)
    requires |len| == 5 && |mid| == 7 && |base| == 5
    ensures (len + mid + base + rest)[0..5] == len && (len + mid + base + rest)[12..17] == base
  {
  }

  /** The repository's leader test, on a sample authority record: record
      length 350, raw bytes unchanged. */
  lemma SampleAuthorityLeader()
    ensures NewLeader("00350cz  a2200157n  4500").Ok?
    ensures GetRecordLength(NewLeader("00350cz  a2200157n  4500").value) == 350
    ensures GetRaw(NewLeader("00350cz  a2200157n  4500").value) == "00350cz  a2200157n  4500"
  {
    var b: Bytes := "00350cz  a2200157n  4500";
    assert b == "00350" + "cz  a22" + "00157" + "n  4500";
    NumberParts("00350", "cz  a22", "00157", "n  4500");
    SampleNumbers(b);
  }
}
