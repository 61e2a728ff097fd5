/**
  `RecordAsMARC` of Marc21Record.go, as it is written. It packs the control
  fields, then the data fields, renders the directory and patches the record
  length and base address into a leader template, but:
  - the control-field payload is the mnemonic line "=TAG  data", not the data;
  - subfields are written without the 0x1F in front of each code;
  - data fields and the directory end with 0x1F instead of 0x1E;
  - the leader template is the mnemonic line "=LDR  " + raw, so the patched
    positions 0-4 and 12-16 are not the leader's own positions and the
    output starts with six bytes more than the lengths count.
 */
module Assembler {
  import opened MarcTypes
  import opened Decimal
  import opened ByteStrings
  import opened Layout
  import Fields
  import Leaders
  import RecordParser

  /** A control field as packed: its mnemonic line and a field terminator. The
      source skips fields whose line is empty, which no field's is. */
  function ControlPayload(cf: ControlField): (b: Bytes)
    ensures |b| == |cf.tag| + |cf.data| + 4
    ensures b[0] == '=' && b[|b| - 1] == END_OF_FIELD
    ensures b[..|b| - 1] == Fields.ControlFieldString(cf)
  {
    Fields.ControlFieldString(cf) + [END_OF_FIELD]
  }

  /** Codes and data one after another with nothing between them: the
      statement meant to add the delimiter appends nothing. */
  function RunTogether(sfs: seq<SubField>): Bytes {
    if |sfs| == 0 then [] else sfs[0].code + sfs[0].data + RunTogether(sfs[1..])
  }

  /** A data field as packed: the defaulted indicators, the run-together
      subfields and 0x1F where the field terminator belongs. */
  function DataPayload(df: DataField): (b: Bytes)
    ensures |b| >= 3 && b[|b| - 1] == SUBFIELD_INDICATOR
    ensures b[..|b| - 1] == Fields.GetIndicator1(df) + Fields.GetIndicator2(df) + RunTogether(df.subFields)
  {
    Fields.GetIndicator1(df) + Fields.GetIndicator2(df) + RunTogether(df.subFields) + [SUBFIELD_INDICATOR]
  }

  function ControlPayloads(cfs: seq<ControlField>): (ps: seq<Bytes>)
    ensures |ps| == |cfs| && forall k | 0 <= k < |cfs| :: ps[k] == ControlPayload(cfs[k])
  {
    if |cfs| == 0 then [] else [ControlPayload(cfs[0])] + ControlPayloads(cfs[1..])
  }

  function DataPayloads(dfs: seq<DataField>): (ps: seq<Bytes>)
    ensures |ps| == |dfs| && forall k | 0 <= k < |dfs| :: ps[k] == DataPayload(dfs[k])
  {
    if |dfs| == 0 then [] else [DataPayload(dfs[0])] + DataPayloads(dfs[1..])
  }

  /** The slots the assembler's directory records. */
  function AssembledSlots(rec: Record): seq<Slot> {
    PackSlots(FieldTags(rec.controlFields, rec.dataFields),
              ControlPayloads(rec.controlFields) + DataPayloads(rec.dataFields), 0)
  }

  /** The directory as written: the entries and a closing 0x1F. */
  function AssembledDirectory(rec: Record): (d: Bytes)
    ensures |d| >= 1 && d[|d| - 1] == SUBFIELD_INDICATOR
  {
    DirectoryBytes(AssembledSlots(rec)) + [SUBFIELD_INDICATOR]
  }

  /** The packed fields: control fields first, then data fields. */
  function AssembledFields(rec: Record): Bytes {
    Concat(ControlPayloads(rec.controlFields)) + Concat(DataPayloads(rec.dataFields))
  }

  /** The assembly step of `RecordAsMARC` from the leader template, the
      rendered directory and the packed fields. The record length counts a
      24-byte leader, the directory, the fields and the record terminator; the
      base address a 24-byte leader and the directory. Its "leader undefined"
      error needs an empty template; it panics when the template has no
      position 12 + i for some i <= 4. */
  function Assemble(ldr: Bytes, dir: Bytes, fields: Bytes): (r: Result<Bytes>)
    ensures r.Err? <==> ldr == []
    ensures r.Panic? <==> 0 < |ldr| < 17
    ensures r.Ok? ==> LaidOut(r.value, |ldr|, dir, fields)
  {
    if ldr == [] then Err(LeaderUndefined)
    else if |ldr| < 17 then Panic(LeaderPatch)
    else
      var recLen := ZeroPad(LEADER_LEN + |dir| + |fields| + 1, 5);
      var base := ZeroPad(LEADER_LEN + |dir|, 5);
      var head := PatchLeader(ldr, recLen, base);
      PiecesAfterHead(head, dir, fields);
      Ok(head + (dir + fields + [END_OF_RECORD]))
  }

  /** `out` is a head of `h` bytes, then `dir`, then `fields`, then the
      record terminator. */
  predicate LaidOut(out: Bytes, h: nat, dir: Bytes, fields: Bytes) {
    && |out| == h + |dir| + |fields| + 1
    && out[|out| - 1] == END_OF_RECORD
    && out[h..h + |dir|] == dir
    && out[h + |dir|..|out| - 1] == fields
  }

  /** A head followed by the directory, the fields and the record
      terminator lays them out where the lengths say. */
  lemma PiecesAfterHead(head: Bytes, dir: Bytes, fields: Bytes)
    ensures LaidOut(head + (dir + fields + [END_OF_RECORD]), |head|, dir, fields)
  {
    var out := head + (dir + fields + [END_OF_RECORD]);
    assert out[|head|..] == dir + fields + [END_OF_RECORD];
  }

  /** `RecordAsMARC`: the mnemonic leader line as template, never empty, so
      the only failure is the panic of a raw leader shorter than eleven
      bytes. */
  function RecordAsMARC(rec: Record): (r: Result<Bytes>)
    ensures !r.Err?
    ensures r.Panic? <==> |rec.leader.raw| < 11
    ensures r.Panic? ==> r.site == LeaderPatch
  {
    Assemble(Leaders.LeaderString(rec.leader), AssembledDirectory(rec), AssembledFields(rec))
  }

  /** The decoder would read a control field back as its whole mnemonic line:
      the payload without its terminator is "=TAG  data", never the data. */
  lemma ControlPayloadIsNotData(cf: ControlField)
    ensures var b := ControlPayload(cf); b[..|b| - 1] != cf.data
    ensures |cf.tag| == 3 ==> |ControlPayload(cf)| == |cf.data| + 7
  {
    var b := ControlPayload(cf);
    assert |b[..|b| - 1]| == |cf.data| + |cf.tag| + 3;
  }

  /** Subfield boundaries are lost: a field with subfields `c1 d1` and `c2 d2`
      packs to the same bytes as one whose single subfield `c1` holds
      `d1 c2 d2`, so no decoder can tell the two apart. */
  lemma SubFieldBoundariesLost(df: DataField, c1: Bytes, d1: Bytes, c2: Bytes, d2: Bytes)
    requires df.subFields == [SubField(c1, d1), SubField(c2, d2)]
    ensures DataPayload(df) == DataPayload(df.(subFields := [SubField(c1, d1 + c2 + d2)]))
  {
    RunTogetherMerges(c1, d1, c2, d2);
  }

  /** Two subfields run together into the bytes of one subfield holding the
      second's code and data after the first's data. */
  lemma RunTogetherMerges(c1: Bytes, d1: Bytes, c2: Bytes, d2: Bytes)
    ensures RunTogether([SubField(c1, d1), SubField(c2, d2)]) == RunTogether([SubField(c1, d1 + c2 + d2)])
  {
    var two := [SubField(c1, d1), SubField(c2, d2)];
    var second := [SubField(c2, d2)];
    var one := [SubField(c1, d1 + c2 + d2)];
    assert two[1..] == second && second[1..] == [] && one[1..] == [];
    assert RunTogether(second) == c2 + d2;
    assert RunTogether(one) == c1 + (d1 + c2 + d2);
  }

  /** The record length written over positions 0-4 reads back as the
      length the assembler counted, whenever it has at most five digits. */
  lemma AssembledNumber(ldr: Bytes, dir: Bytes, fields: Bytes)
    requires |ldr| >= 17 && LEADER_LEN + |dir| + |fields| + 1 < 100000
    ensures Atoi(Assemble(ldr, dir, fields).value[0..5]) == Ok(LEADER_LEN + |dir| + |fields| + 1)
  {
    var n := LEADER_LEN + |dir| + |fields| + 1;
    assert Pow10(5) == 100000;
    ZeroPadWidth(n, 5);
    assert Assemble(ldr, dir, fields).value[0..5] == ZeroPad(n, 5);
    AtoiOfZeroPad(n, 5);
  }

  /** The base address written over positions 12-16 reads back as the
      address the assembler counted, whenever the record length has at most
      five digits. */
  lemma AssembledBase(ldr: Bytes, dir: Bytes, fields: Bytes)
    requires |ldr| >= 17 && LEADER_LEN + |dir| + |fields| + 1 < 100000
    ensures Atoi(Assemble(ldr, dir, fields).value[12..17]) == Ok(LEADER_LEN + |dir|)
  {
    var n := LEADER_LEN + |dir|;
    assert Pow10(5) == 100000;
    ZeroPadWidth(n, 5);
    assert Assemble(ldr, dir, fields).value[12..17] == ZeroPad(n, 5);
    AtoiOfZeroPad(n, 5);
  }

  /** Outside the two patched numbers the template passes through. */
  lemma TemplateKept(ldr: Bytes, dir: Bytes, fields: Bytes)
    requires |ldr| >= 17
    ensures forall i | 5 <= i < 12 || 17 <= i < |ldr| :: Assemble(ldr, dir, fields).value[i] == ldr[i]
  {
  }
  /** `out` starts with the template `ldr` carrying the numbers `n` over
      positions 0-4 and `b` over 12-16, its other bytes unchanged. */
  ghost predicate PatchedHeader(out: Bytes, ldr: Bytes, n: int, b: int) {
    && 17 <= |ldr| <= |out|
    && Atoi(out[0..5]) == Ok(n) && Atoi(out[12..17]) == Ok(b)
    && forall i | 5 <= i < 12 || 17 <= i < |ldr| :: out[i] == ldr[i]
  }

  /** The assembled output starts with the template patched with the
      record length and the base address, both within five digits. */
  lemma AssembledHeader(ldr: Bytes, dir: Bytes, fields: Bytes)
    requires |ldr| >= 17 && LEADER_LEN + |dir| + |fields| + 1 < 100000
    ensures PatchedHeader(Assemble(ldr, dir, fields).value, ldr,
                          LEADER_LEN + |dir| + |fields| + 1, LEADER_LEN + |dir|)
  {
    AssembledNumber(ldr, dir, fields);
    AssembledBase(ldr, dir, fields);
    TemplateKept(ldr, dir, fields);
  }


  /** With a template six bytes longer than the 24-byte leader the lengths
      count, the declared record length is six bytes short of the output. */
  lemma AssembleDeclaresShort(ldr: Bytes, dir: Bytes, fields: Bytes)
    requires |ldr| == LEADER_LEN + 6
    requires |Assemble(ldr, dir, fields).value| <= MAX_RECORD_LEN
    ensures Atoi(Assemble(ldr, dir, fields).value[0..5]) == Ok(|Assemble(ldr, dir, fields).value| - 6)
  {
    AssembledNumber(ldr, dir, fields);
  }

  /** The reader takes the first |out| - 6 bytes of `out` followed by `rest`
      as a record exactly when the byte seven from the end of `out` is 0x1D,
      and otherwise fails for want of the record terminator. */
  predicate ReadSixShort(out: Bytes, rest: Bytes)
    requires |out| >= 7
  {
    && (RecordParser.NextRecord(out + rest).Ok? <==> out[|out| - 7] == END_OF_RECORD)
    && (!RecordParser.NextRecord(out + rest).Ok? ==>
          RecordParser.NextRecord(out + rest) == Err(RecordTerminatorNotFound))
    && (RecordParser.NextRecord(out + rest).Ok? ==>
          RecordParser.NextRecord(out + rest).value.record == out[..|out| - 6])
  }

  /** A reader of bytes that declare a length six short of their own stops
      six bytes early: it takes the first |out| - 6 bytes as the record when
      the byte before them is 0x1D and fails otherwise, so the record
      terminator at the end is never the one the reader checks. */
  lemma CutsShort(out: Bytes, rest: Bytes)
    requires LEADER_LEN + 6 < |out| <= MAX_RECORD_LEN && Atoi(out[0..5]) == Ok(|out| - 6)
    ensures ReadSixShort(out, rest)
    ensures RecordParser.NextRecord(out + rest).Ok? ==>
              RecordParser.NextRecord(out + rest).value == RecordParser.Framed(out[..|out| - 6], out[|out| - 6..] + rest)
  {
    var n := |out| - 6;
    var stream := out + rest;
    assert stream[..5] == out[0..5];
    RecordParser.FramingCut(stream, n);
    assert stream[..n] == out[..n] && stream[n..] == out[n..] + rest;
  }

  /** The output of `RecordAsMARC` for a 24-byte leader, within the five
      digits, is cut six bytes short by the reader: the record terminator it
      wrote is never the one the reader checks. */
  lemma AsWrittenCutsShort(rec: Record, rest: Bytes)
    requires |rec.leader.raw| == LEADER_LEN
    requires |RecordAsMARC(rec).value| <= MAX_RECORD_LEN
    ensures |RecordAsMARC(rec).value| >= 7 && ReadSixShort(RecordAsMARC(rec).value, rest)
  {
    TemplateCutsShort(Leaders.LeaderString(rec.leader), AssembledDirectory(rec), AssembledFields(rec), rest);
  }

  /** A 30-byte template, as `RecordAsMARC` passes for a 24-byte leader,
      makes output the reader cuts six bytes short. */
  lemma TemplateCutsShort(ldr: Bytes, dir: Bytes, fields: Bytes, rest: Bytes)
    requires |ldr| == LEADER_LEN + 6
    requires |Assemble(ldr, dir, fields).value| <= MAX_RECORD_LEN
    ensures |Assemble(ldr, dir, fields).value| >= 7 && ReadSixShort(Assemble(ldr, dir, fields).value, rest)
  {
    AssembleDeclaresShort(ldr, dir, fields);
    CutsShort(Assemble(ldr, dir, fields).value, rest);
  }

  /** The template's bytes from position 17 on pass through unpatched. */
  lemma TemplateByteKept(ldr: Bytes, dir: Bytes, fields: Bytes, i: nat)
    requires 17 <= i < |ldr|
    ensures Assemble(ldr, dir, fields).value[i] == ldr[i]
  {
  }

  /** A record with no fields and a leader whose byte 19 is not 0x1D cannot be
      read back at all: the reader checks that leader byte for the record
      terminator. */
  lemma EmptyRecordNotFramed(rec: Record, rest: Bytes)
    requires |rec.leader.raw| == LEADER_LEN && rec.leader.raw[19] != END_OF_RECORD
    requires rec.controlFields == [] && rec.dataFields == []
    ensures RecordAsMARC(rec).Ok?
    ensures RecordParser.NextRecord(RecordAsMARC(rec).value + rest) == Err(RecordTerminatorNotFound)
  {
    EmptyRecordBytes(rec);
    AsWrittenCutsShort(rec, rest);
  }

  /** A record with no fields is written as its 30-byte template, the lone
      0x1F closing the directory and the record terminator: 32 bytes, of
      which byte 25 is leader byte 19. */
  lemma EmptyRecordBytes(rec: Record)
    requires |rec.leader.raw| == LEADER_LEN
    requires rec.controlFields == [] && rec.dataFields == []
    ensures RecordAsMARC(rec).Ok?
    ensures |RecordAsMARC(rec).value| == 32 && RecordAsMARC(rec).value[25] == rec.leader.raw[19]
  {
    var ldr := Leaders.LeaderString(rec.leader);
    var dir := AssembledDirectory(rec);
    var fields := AssembledFields(rec);
    assert dir == [SUBFIELD_INDICATOR] by {
      assert AssembledSlots(rec) == [];
      assert DirectoryBytes([]) == [];
    }
    assert fields == [] by {
      assert ControlPayloads([]) == [] && DataPayloads([]) == [];
    }
    TemplateByteKept(ldr, dir, fields, 25);
    assert ldr[25] == rec.leader.raw[19];
  }
}
