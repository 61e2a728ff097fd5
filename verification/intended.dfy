/**
  The binary record `RecordAsMARC` evidently means to write, which the
  decoder of Marc21Record.go reads back field for field: the 24-byte leader
  itself as the template, each control field as its data and the field
  terminator, each data field as its two indicators, the subfields each
  behind the subfield delimiter, and the field terminator, and a directory
  closed by the field terminator. Record length and base address are
  patched in as the assembler does.
 */
module IntendedAssembler {
  import opened MarcTypes
  import opened Decimal
  import opened ByteStrings
  import opened SubFieldFormat
  import opened Layout
  import Tags
  import Fields
  import Leaders
  import Directory
  import RecordParser
  import Assembler

  function ControlPayload(cf: ControlField): Bytes {
    cf.data + [END_OF_FIELD]
  }

  function DataPayload(df: DataField): Bytes {
    Fields.GetIndicator1(df) + Fields.GetIndicator2(df) + SubFieldsBytes(df.subFields) + [END_OF_FIELD]
  }

  /** `ps` are the payloads of `cfs` followed by those of `dfs`. */
  predicate PayloadsOf(ps: seq<Bytes>, cfs: seq<ControlField>, dfs: seq<DataField>) {
    && |ps| == |cfs| + |dfs|
    && (forall k | 0 <= k < |cfs| :: ps[k] == ControlPayload(cfs[k]))
    && (forall k | 0 <= k < |dfs| :: ps[|cfs| + k] == DataPayload(dfs[k]))
  }

  /** The packed fields in order: control fields, then data fields. */
  function Payloads(rec: Record): (ps: seq<Bytes>)
    ensures PayloadsOf(ps, rec.controlFields, rec.dataFields)
  {
    ControlPayloads(rec.controlFields) + DataPayloads(rec.dataFields)
  }

  /** The same list builders as the assembler's, over this module's payloads;
      one shared builder would take the payload function as a parameter and
      carry that function value into every contract that mentions it. */
  function ControlPayloads(cfs: seq<ControlField>): (ps: seq<Bytes>)
    ensures |ps| == |cfs| && forall k | 0 <= k < |cfs| :: ps[k] == ControlPayload(cfs[k])
  {
    if |cfs| == 0 then [] else [ControlPayload(cfs[0])] + ControlPayloads(cfs[1..])
  }

  function DataPayloads(dfs: seq<DataField>): (ps: seq<Bytes>)
    ensures |ps| == |dfs| && forall k | 0 <= k < |dfs| :: ps[k] == DataPayload(dfs[k])
  {
    if |dfs| == 0 then [] else [DataPayload(dfs[0])] + DataPayloads(dfs[1..])
  }

  function Slots(rec: Record): seq<Slot> {
    PackSlots(FieldTags(rec.controlFields, rec.dataFields), Payloads(rec), 0)
  }

  /** The directory: one entry per field and the field terminator. */
  function DirectoryOf(rec: Record): Bytes {
    DirectoryBytes(Slots(rec)) + [END_OF_FIELD]
  }

  function Body(rec: Record): Bytes {
    Concat(Payloads(rec))
  }

  /** What the four-digit field lengths and the five-digit record length
      can express. */
  predicate Fits(rec: Record) {
    && (forall k | 0 <= k < |Payloads(rec)| :: |Payloads(rec)[k]| <= 9999)
    && LEADER_LEN + |DirectoryOf(rec)| + |Body(rec)| + 1 <= MAX_RECORD_LEN
  }

  /** The corrected `RecordAsMARC`: the leader must be the 24 bytes the
      decoder reads, and a record whose numbers do not fit their digits is
      refused rather than written with a longer number. */
  function EncodeRecord(rec: Record): (r: Result<Bytes>)
    ensures r.Ok? <==> |rec.leader.raw| == LEADER_LEN && Fits(rec)
    ensures |rec.leader.raw| != LEADER_LEN ==> r == Err(IncompleteLeader)
    ensures |rec.leader.raw| == LEADER_LEN && !Fits(rec) ==> r == Err(RecordTooLong)
    ensures r.Ok? ==> && |r.value| == LEADER_LEN + |DirectoryOf(rec)| + |Body(rec)| + 1
                      && r.value[|r.value| - 1] == END_OF_RECORD
  {
    if |rec.leader.raw| != LEADER_LEN then Err(IncompleteLeader)
    else if !Fits(rec) then Err(RecordTooLong)
    else Assembler.Assemble(rec.leader.raw, DirectoryOf(rec), Body(rec))
  }

  // ----- what the decoder reads back -----

  /** An indicator the decoder gives back unchanged: one ASCII byte. */
  predicate IndicatorReadable(ind: Bytes) {
    |ind| == 1 && ind[0] as int < 0x80
  }

  predicate ControlFieldEncodable(cf: ControlField) {
    Tags.ValidTag(cf.tag) && Tags.IsControlTag(cf.tag) == Ok(true)
  }

  predicate AllControlEncodable(cfs: seq<ControlField>) {
    forall k | 0 <= k < |cfs| :: ControlFieldEncodable(cfs[k])
  }

  predicate DataFieldEncodable(df: DataField) {
    && Tags.ValidTag(df.tag) && Tags.IsControlTag(df.tag) == Ok(false)
    && IndicatorReadable(df.indicator1) && IndicatorReadable(df.indicator2)
    && AllEncodable(df.subFields)
  }

  predicate AllDataEncodable(dfs: seq<DataField>) {
    forall k | 0 <= k < |dfs| :: DataFieldEncodable(dfs[k])
  }

  /** A record the binary format carries: a 24-byte leader, control fields
      under control tags, data fields under data tags with one-byte ASCII
      indicators and encodable subfields, and sizes that fit. */
  predicate Encodable(rec: Record) {
    && |rec.leader.raw| == LEADER_LEN
    && AllControlEncodable(rec.controlFields)
    && AllDataEncodable(rec.dataFields)
    && Fits(rec)
  }

  /** A data field's bytes are read back by the data-field pass as that
      field. */
  lemma DataPayloadDecodes(df: DataField)
    requires DataFieldEncodable(df)
    ensures |DataPayload(df)| >= 3 && DataPayload(df)[|DataPayload(df)| - 1] == END_OF_FIELD
    ensures RecordParser.DataFieldOf(df.tag, DataPayload(df)) == df
  {
    var b := DataPayload(df);
    var sub := SubFieldsBytes(df.subFields);
    assert b == df.indicator1 + df.indicator2 + sub + [END_OF_FIELD];
    assert b[0] == df.indicator1[0] && b[1] == df.indicator2[0];
    assert b[2..|b| - 1] == sub;
    assert RuneString(b[0]) == df.indicator1 && RuneString(b[1]) == df.indicator2;
    SubFieldsRoundTrip(df.subFields);
  }

  /** A prefix of the pieces is no longer than all of them. */
  lemma ConcatPrefix(pieces: seq<Bytes>, k: nat)
    requires k <= |pieces|
    ensures |Concat(pieces[..k])| <= |Concat(pieces)|
  {
    assert pieces == pieces[..k] + pieces[k..];
    ConcatAppend(pieces[..k], pieces[k..]);
  }

  /** Every slot of an encodable record fits the entry format. */
  lemma SlotsFit(rec: Record)
    requires Encodable(rec)
    ensures forall k | 0 <= k < |Slots(rec)| :: SlotFits(Slots(rec)[k])
  {
    PackedFit(FieldTags(rec.controlFields, rec.dataFields), Payloads(rec), rec.controlFields, rec.dataFields);
  }

  /** Slots packed from the tags of encodable fields and payloads of at most
      9999 bytes, 99999 in all, fit the entry format. */
  lemma PackedFit(tags: seq<Tag>, ps: seq<Bytes>, cfs: seq<ControlField>, dfs: seq<DataField>)
    requires TagsOf(tags, cfs, dfs) && |ps| == |tags|
    requires AllControlEncodable(cfs) && AllDataEncodable(dfs)
    requires (forall k | 0 <= k < |ps| :: |ps[k]| <= 9999) && |Concat(ps)| <= MAX_RECORD_LEN
    ensures forall k | 0 <= k < |tags| :: SlotFits(PackSlots(tags, ps, 0)[k])
  {
    var slots := PackSlots(tags, ps, 0);
    forall k | 0 <= k < |tags| ensures SlotFits(slots[k]) {
      ConcatPrefix(ps, k);
      var n := |cfs|;
      if k < n {
        assert ControlFieldEncodable(cfs[k]);
      } else {
        assert tags[n + (k - n)] == dfs[k - n].tag;
        assert DataFieldEncodable(dfs[k - n]);
      }
    }
  }

  /** Entries recording the length of each piece and the total length of
      the pieces before it slice the pieces back out of their concatenation
      at `base`. */
  lemma PayloadSlices(raw: Bytes, base: nat, es: seq<DirectoryEntry>, ps: seq<Bytes>)
    requires Locates(es, ps) && OccursAt(raw, Concat(ps), base)
    ensures forall k | 0 <= k < |es| :: RecordParser.FieldSlice(raw, base, es[k]) == Some(ps[k])
  {
    forall k | 0 <= k < |es| ensures RecordParser.FieldSlice(raw, base, es[k]) == Some(ps[k]) {
      PayloadSlice(raw, base, es[k], ps, k);
    }
  }

  lemma PayloadSlice(raw: Bytes, base: nat, e: DirectoryEntry, ps: seq<Bytes>, k: nat)
    requires k < |ps| && e.fieldLength == |ps[k]| && e.startingPosition == |Concat(ps[..k])|
    requires OccursAt(raw, Concat(ps), base)
    ensures RecordParser.FieldSlice(raw, base, e) == Some(ps[k])
  {
    ConcatSlice(ps, k);
    var s := |Concat(ps[..k])|;
    var all := Concat(ps);
    SliceWithin(raw, base, all, s, |ps[k]|);
  }

  /** A slice of bytes found inside `raw` is found at the same offset there. */
  lemma SliceWithin(raw: Bytes, b: nat, all: Bytes, s: nat, len: nat)
    requires b + |all| <= |raw| && raw[b..b + |all|] == all && s + len <= |all|
    ensures raw[b + s..b + s + len] == all[s..s + len]
  {
    var got := raw[b + s..b + s + len];
    var want := all[s..s + len];
    forall i | 0 <= i < len ensures got[i] == want[i] {
      assert raw[b..b + |all|][s + i] == raw[b + s + i];
    }
  }

  /** The leader and framing of an output: longer than a leader and within
      the five digits, ending with the record terminator and declaring its
      own length, with a leader that reads back with that length, the base
      address `base` and the other bytes of the template `ldr`. */
  predicate LeaderFrames(out: Bytes, base: int, ldr: Bytes)
    requires |ldr| == LEADER_LEN
  {
    && LEADER_LEN < |out| <= MAX_RECORD_LEN && out[|out| - 1] == END_OF_RECORD
    && Atoi(out[..5]) == Ok(|out|)
    && Leaders.NewLeader(out[..LEADER_LEN]).Ok?
    && Leaders.NewLeader(out[..LEADER_LEN]).value.recordLength == |out|
    && Leaders.NewLeader(out[..LEADER_LEN]).value.baseAddressOfData == base
    && Leaders.CopiesFixedBytes(Leaders.NewLeader(out[..LEADER_LEN]).value, ldr)
  }

  /** The decoder reads `out` back as a record with the fields of `rec` and
      a leader holding the length of `out`, the base address `base` and the
      other leader bytes of `rec`. */
  predicate DecodesAs(out: Bytes, rec: Record, base: int)
    requires |rec.leader.raw| == LEADER_LEN
  {
    && RecordParser.ParseRecord(out).Ok?
    && RecordParser.ParseRecord(out).value.controlFields == rec.controlFields
    && RecordParser.ParseRecord(out).value.dataFields == rec.dataFields
    && RecordParser.ParseRecord(out).value.leader.recordLength == |out|
    && RecordParser.ParseRecord(out).value.leader.baseAddressOfData == base
    && Leaders.CopiesFixedBytes(RecordParser.ParseRecord(out).value.leader, rec.leader.raw)
  }

  /** The leader of an assembled record reads back with the length of the
      output, the base address of its fields and the template's other bytes. */
  lemma LeaderReadsBack(ldr: Bytes, dir: Bytes, body: Bytes)
    requires |ldr| == LEADER_LEN && LEADER_LEN + |dir| + |body| + 1 <= MAX_RECORD_LEN
    ensures LeaderFrames(Assembler.Assemble(ldr, dir, body).value, LEADER_LEN + |dir|, ldr)
  {
    Assembler.AssembledHeader(ldr, dir, body);
    HeaderFrames(Assembler.Assemble(ldr, dir, body).value, ldr, LEADER_LEN + |dir|);
  }

  /** Bytes ending with the record terminator whose head is the 24-byte
      template patched with their own length and `base` frame themselves. */
  lemma HeaderFrames(out: Bytes, ldr: Bytes, base: int)
    requires |ldr| == LEADER_LEN && LEADER_LEN < |out| <= MAX_RECORD_LEN
    requires out[|out| - 1] == END_OF_RECORD && Assembler.PatchedHeader(out, ldr, |out|, base)
    ensures LeaderFrames(out, base, ldr)
  {
    LeaderOf(out, ldr, |out|, base);
  }

  /** Bytes whose numbers read `n` and `b` and whose other leader bytes are
      those of `ldr` start with a leader holding those numbers and bytes. */
  lemma LeaderOf(out: Bytes, ldr: Bytes, n: int, b: int)
    requires |out| >= LEADER_LEN && |ldr| == LEADER_LEN
    requires Atoi(out[0..5]) == Ok(n) && Atoi(out[12..17]) == Ok(b)
    requires forall i | 5 <= i < 12 || 17 <= i < LEADER_LEN :: out[i] == ldr[i]
    ensures Atoi(out[..5]) == Ok(n)
    ensures Leaders.NewLeader(out[..LEADER_LEN]).Ok?
    ensures Leaders.NewLeader(out[..LEADER_LEN]).value.recordLength == n
    ensures Leaders.NewLeader(out[..LEADER_LEN]).value.baseAddressOfData == b
    ensures Leaders.CopiesFixedBytes(Leaders.NewLeader(out[..LEADER_LEN]).value, ldr)
  {
    var head := out[..LEADER_LEN];
    assert head[0..5] == out[0..5] == out[..5] && head[12..17] == out[12..17];
    assert Leaders.CopiesFixedBytes(Leaders.NewLeader(head).value, head);
  }

  /** Entries holding the record's control fields and then its data fields
      are read back by the two passes as exactly those fields. */
  lemma FieldsReadBack(raw: Bytes, base: int, es: seq<DirectoryEntry>,
                       cfs: seq<ControlField>, dfs: seq<DataField>)
    requires TaggedAs(es, cfs, dfs) && AllControlEncodable(cfs) && AllDataEncodable(dfs)
    requires forall k | 0 <= k < |cfs| ::
               RecordParser.FieldSlice(raw, base, es[k]) == Some(ControlPayload(cfs[k]))
    requires forall k | 0 <= k < |dfs| ::
               RecordParser.FieldSlice(raw, base, es[|cfs| + k]) == Some(DataPayload(dfs[k]))
    ensures RecordParser.FieldsRead(raw, base, es, cfs, dfs)
  {
    var n := |cfs|;
    forall k | 0 <= k < n ensures RecordParser.HoldsControlField(raw, base, es[k], cfs[k]) {
      assert ControlFieldEncodable(cfs[k]);
    }
    forall k | n <= k < |es| ensures Tags.IsControlTag(es[k].tag) == Ok(false) {
      assert es[n + (k - n)].tag == dfs[k - n].tag && DataFieldEncodable(dfs[k - n]);
    }
    RecordParser.ControlPassCollects(raw, base, es, cfs, []);
    forall k | 0 <= k < n ensures Tags.IsControlTag(es[k].tag) == Ok(true) {
      assert ControlFieldEncodable(cfs[k]);
    }
    forall k | 0 <= k < |dfs| ensures RecordParser.HoldsDataField(raw, base, es[n + k], dfs[k]) {
      assert DataFieldEncodable(dfs[k]);
      DataPayloadDecodes(dfs[k]);
    }
    RecordParser.DataPassCollects(raw, base, es, n, dfs);
  }

  /** Entries that locate the pieces `ps` packed one after another. */
  predicate Locates(es: seq<DirectoryEntry>, ps: seq<Bytes>) {
    && |es| == |ps|
    && forall k | 0 <= k < |es| ::
         es[k].fieldLength == |ps[k]| && es[k].startingPosition == |Concat(ps[..k])|
  }

  /** Entries tagged as the control fields `cfs`, then the data fields `dfs`. */
  predicate TaggedAs(es: seq<DirectoryEntry>, cfs: seq<ControlField>, dfs: seq<DataField>) {
    && |es| == |cfs| + |dfs|
    && (forall k | 0 <= k < |cfs| :: es[k].tag == cfs[k].tag)
    && (forall k | 0 <= k < |dfs| :: es[|cfs| + k].tag == dfs[k].tag)
  }

  /** The entries the directory of a record holds: per field its tag, its
      payload's length and the length of the payloads before it. */
  lemma EntriesOfRecord(rec: Record)
    ensures Locates(SlotEntries(Slots(rec)), Payloads(rec))
    ensures TaggedAs(SlotEntries(Slots(rec)), rec.controlFields, rec.dataFields)
  {
    var tags := FieldTags(rec.controlFields, rec.dataFields);
    var ps := Payloads(rec);
    PackedEntries(tags, ps);
    EntriesLocateAndTag(SlotEntries(PackSlots(tags, ps, 0)), tags, ps, rec.controlFields, rec.dataFields);
  }

  /** Entries carrying the tags of `cfs` then `dfs` and locating `ps` one
      after another. */
  lemma EntriesLocateAndTag(es: seq<DirectoryEntry>, tags: seq<Tag>, ps: seq<Bytes>,
                            cfs: seq<ControlField>, dfs: seq<DataField>)
    requires TagsOf(tags, cfs, dfs) && Places(es, tags, ps)
    ensures Locates(es, ps) && TaggedAs(es, cfs, dfs)
  {
  }

  /** The round trip: an encodable record is written, and the decoder reads
      back its control fields and data fields, a leader whose record length
      is the output's length and whose other bytes are the record's, and the
      reader cuts exactly the written bytes off the front of any stream. */
  lemma EncodeDecode(rec: Record, rest: Bytes)
    requires Encodable(rec)
    ensures EncodeRecord(rec).Ok?
    ensures DecodesAs(EncodeRecord(rec).value, rec, LEADER_LEN + |DirectoryOf(rec)|)
    ensures RecordParser.NextRecord(EncodeRecord(rec).value + rest)
            == Ok(RecordParser.Framed(EncodeRecord(rec).value, rest))
  {
    EncodedLeader(rec);
    EncodedDirectory(rec);
    EncodedFields(rec);
    ReadBack(EncodeRecord(rec).value, LEADER_LEN + |DirectoryOf(rec)|, SlotEntries(Slots(rec)), rec, rest);
  }

  /** Bytes with a framing leader, a directory that reads as `es` and fields
      that both passes read as those of `rec` decode as `rec`, and the reader
      cuts them off the front of any stream. */
  lemma ReadBack(out: Bytes, base: int, es: seq<DirectoryEntry>, rec: Record, rest: Bytes)
    requires |rec.leader.raw| == LEADER_LEN && LeaderFrames(out, base, rec.leader.raw)
    requires Directory.ParseDirectory(out) == Ok(es)
    requires RecordParser.FieldsRead(out, base, es, rec.controlFields, rec.dataFields)
    ensures DecodesAs(out, rec, base)
    ensures RecordParser.NextRecord(out + rest) == Ok(RecordParser.Framed(out, rest))
  {
    var l := Leaders.NewLeader(out[..LEADER_LEN]).value;
    RecordParser.ParseRecordParts(out, l, es, rec.controlFields, rec.dataFields);
    RecordParser.FramingRoundTrip(out, rest);
  }

  /** The encoded record is framed by its own length and terminator, and its
      leader reads back with that length, the base address after the
      directory and the template's other bytes. */
  lemma EncodedLeader(rec: Record)
    requires Encodable(rec)
    ensures EncodeRecord(rec).Ok?
    ensures LeaderFrames(EncodeRecord(rec).value, LEADER_LEN + |DirectoryOf(rec)|, rec.leader.raw)
  {
    LeaderReadsBack(rec.leader.raw, DirectoryOf(rec), Body(rec));
  }

  /** The directory of the encoded record reads back as the entries of the
      record's slots. */
  lemma EncodedDirectory(rec: Record)
    requires Encodable(rec)
    ensures EncodeRecord(rec).Ok?
    ensures Directory.ParseDirectory(EncodeRecord(rec).value) == Ok(SlotEntries(Slots(rec)))
  {
    DirectoryReadsBack(rec, EncodeRecord(rec).value);
  }

  /** Both field passes over the encoded record, at the base address after
      the directory, read back the record's fields. */
  lemma EncodedFields(rec: Record)
    requires Encodable(rec)
    ensures EncodeRecord(rec).Ok?
    ensures RecordParser.FieldsRead(EncodeRecord(rec).value, LEADER_LEN + |DirectoryOf(rec)|,
                                    SlotEntries(Slots(rec)), rec.controlFields, rec.dataFields)
  {
    BodyAfterDirectory(rec.leader.raw, DirectoryOf(rec), Body(rec));
    EntriesOfRecord(rec);
    FieldsOfRecordReadBack(rec, EncodeRecord(rec).value, LEADER_LEN + |DirectoryOf(rec)|, SlotEntries(Slots(rec)));
  }

  /** The directory of an encodable record, written after the leader, is
      read back as the entries of its slots. */
  lemma DirectoryReadsBack(rec: Record, out: Bytes)
    requires Encodable(rec)
    requires out == Assembler.Assemble(rec.leader.raw, DirectoryOf(rec), Body(rec)).value
    ensures Directory.ParseDirectory(out) == Ok(SlotEntries(Slots(rec)))
  {
    SlotsFit(rec);
    DirectoryBytesHold(Slots(rec));
    DirectoryAfterLeader(rec.leader.raw, DirectoryBytes(Slots(rec)), Body(rec), Slots(rec));
  }

  /** Rendered slots and the field terminator, written after a 24-byte
      leader, are read back as the slots' entries. */
  lemma DirectoryAfterLeader(ldr: Bytes, d: Bytes, body: Bytes, slots: seq<Slot>)
    requires |ldr| == LEADER_LEN && HoldsSlots(d, slots)
    ensures Directory.ParseDirectory(Assembler.Assemble(ldr, d + [END_OF_FIELD], body).value)
            == Ok(SlotEntries(slots))
  {
    var dir := d + [END_OF_FIELD];
    var out := Assembler.Assemble(ldr, dir, body).value;
    assert out[LEADER_LEN..LEADER_LEN + |d| + 1] == dir;
    DirectoryBytesParse(out, LEADER_LEN, slots, d);
    Directory.ParseDirectoryIff(out, SlotEntries(slots));
  }

  /** The packed fields follow the leader and the directory. */
  lemma BodyAfterDirectory(ldr: Bytes, dir: Bytes, body: Bytes)
    requires |ldr| == LEADER_LEN
    ensures OccursAt(Assembler.Assemble(ldr, dir, body).value, body, LEADER_LEN + |dir|)
  {
  }

  /** The fields of an encodable record, written after its directory, are
      read back by both passes at the base address the leader declares. */
  lemma FieldsOfRecordReadBack(rec: Record, out: Bytes, base: nat, es: seq<DirectoryEntry>)
    requires AllControlEncodable(rec.controlFields) && AllDataEncodable(rec.dataFields)
    requires OccursAt(out, Body(rec), base)
    requires Locates(es, Payloads(rec)) && TaggedAs(es, rec.controlFields, rec.dataFields)
    ensures RecordParser.FieldsRead(out, base, es, rec.controlFields, rec.dataFields)
  {
    FieldsAt(out, base, es, Payloads(rec), rec.controlFields, rec.dataFields);
  }

  /** Entries locating payloads packed at `base`, the control payloads of
      `cfs` followed by the data payloads of `dfs`, are read back by both
      passes as `cfs` and `dfs`. */
  lemma FieldsAt(out: Bytes, base: nat, es: seq<DirectoryEntry>, ps: seq<Bytes>,
                 cfs: seq<ControlField>, dfs: seq<DataField>)
    requires PayloadsOf(ps, cfs, dfs) && Locates(es, ps) && TaggedAs(es, cfs, dfs)
    requires AllControlEncodable(cfs) && AllDataEncodable(dfs)
    requires OccursAt(out, Concat(ps), base)
    ensures RecordParser.FieldsRead(out, base, es, cfs, dfs)
  {
    PayloadSlices(out, base, es, ps);
    forall k | 0 <= k < |dfs|
      ensures RecordParser.FieldSlice(out, base, es[|cfs| + k]) == Some(DataPayload(dfs[k]))
    {
      assert ps[|cfs| + k] == DataPayload(dfs[k]);
    }
    FieldsReadBack(out, base, es, cfs, dfs);
  }
}
