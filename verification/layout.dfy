/**
  The layout arithmetic of record assembly (`RecordAsMARC` in
  Marc21Record.go): fields are packed one after another, each directory
  entry records the field's length and its start as the running total of the
  lengths before it, and two five-digit numbers are patched into the leader
  template at positions 0-4 and 12-16.
 */
module Layout {
  import opened MarcTypes
  import opened Decimal
  import opened ByteStrings
  import Tags
  import Directory

  /** What the assembler records for a packed field: tag, length and start. */
  datatype Slot = Slot(tag: Tag, length: nat, start: nat)

  /** The tags of the fields in packing order: control fields, then data fields. */
  function FieldTags(cfs: seq<ControlField>, dfs: seq<DataField>): (tags: seq<Tag>)
    ensures TagsOf(tags, cfs, dfs)
  {
    seq(|cfs|, k requires 0 <= k < |cfs| => cfs[k].tag) + seq(|dfs|, k requires 0 <= k < |dfs| => dfs[k].tag)
  }

  /** `tags` are the tags of the control fields `cfs`, then of the data
      fields `dfs`. */
  predicate TagsOf(tags: seq<Tag>, cfs: seq<ControlField>, dfs: seq<DataField>) {
    && |tags| == |cfs| + |dfs|
    && (forall k | 0 <= k < |cfs| :: tags[k] == cfs[k].tag)
    && (forall k | 0 <= k < |dfs| :: tags[|cfs| + k] == dfs[k].tag)
  }

  lemma {:induction false} ConcatAppend(a: seq<Bytes>, b: seq<Bytes>)
    ensures Concat(a + b) == Concat(a) + Concat(b)
  {
    if |a| == 0 {
      assert a + b == b;
    } else {
      assert (a + b)[0] == a[0];
      assert (a + b)[1..] == a[1..] + b;
      ConcatAppend(a[1..], b);
    }
  }

  /** The packed bytes hold piece `k` right after the pieces before it. */
  lemma ConcatSlice(pieces: seq<Bytes>, k: nat)
    requires k < |pieces|
    ensures |Concat(pieces[..k])| + |pieces[k]| <= |Concat(pieces)|
    ensures Concat(pieces)[|Concat(pieces[..k])|..|Concat(pieces[..k])| + |pieces[k]|] == pieces[k]
  {
    assert pieces == pieces[..k] + [pieces[k]] + pieces[k + 1..];
    ConcatAppend(pieces[..k] + [pieces[k]], pieces[k + 1..]);
    ConcatAppend(pieces[..k], [pieces[k]]);
    assert Concat([pieces[k]]) == pieces[k] + Concat([]);
  }

  /** The slots of fields packed in order from `start`. */
  function PackSlots(tags: seq<Tag>, payloads: seq<Bytes>, start: nat): (slots: seq<Slot>)
    requires |tags| == |payloads|
    ensures |slots| == |tags|
    ensures forall k | 0 <= k < |slots| ::
              slots[k] == Slot(tags[k], |payloads[k]|, start + |Concat(payloads[..k])|)
  {
    if |tags| == 0 then []
    else
      var rest := PackSlots(tags[1..], payloads[1..], start + |payloads[0]|);
      var slots := [Slot(tags[0], |payloads[0]|, start)] + rest;
      assert forall k | 1 <= k < |slots| :: slots[k] == rest[k - 1];
      forall k | 1 <= k < |slots|
        ensures |Concat(payloads[..k])| == |payloads[0]| + |Concat(payloads[1..][..k - 1])|
      {
        assert payloads[..k][0] == payloads[0] && payloads[..k][1..] == payloads[1..][..k - 1];
      }
      assert payloads[..0] == [];
      slots
  }

  /** Each slot's start is where its field begins in the packed bytes: the
      first field starts at `start` and every next one right after the one
      before. */
  lemma PackSlotsContiguous(tags: seq<Tag>, payloads: seq<Bytes>, start: nat, k: nat)
    requires |tags| == |payloads| && k + 1 < |tags|
    ensures PackSlots(tags, payloads, start)[k + 1].start
            == PackSlots(tags, payloads, start)[k].start + PackSlots(tags, payloads, start)[k].length
  {
    assert payloads[..k + 1] == payloads[..k] + [payloads[k]];
    ConcatAppend(payloads[..k], [payloads[k]]);
    assert Concat([payloads[k]]) == payloads[k] + Concat([]);
  }

  /** The directory entry a slot is rendered as. */
  function RenderSlot(s: Slot): Bytes {
    Directory.EntryBytes(s.tag, s.length, s.start)
  }

  /** The directory bytes: one rendered entry per slot, in order. */
  function DirectoryBytes(slots: seq<Slot>): Bytes {
    Concat(Rendered(slots))
  }

  /** The rendered slots, one piece per slot. */
  function Rendered(slots: seq<Slot>): (pieces: seq<Bytes>)
    ensures |pieces| == |slots| && forall k | 0 <= k < |slots| :: pieces[k] == RenderSlot(slots[k])
  {
    seq(|slots|, k requires 0 <= k < |slots| => RenderSlot(slots[k]))
  }

  /** A slot the five-byte and four-byte formats can hold. */
  predicate SlotFits(s: Slot) {
    Tags.ValidTag(s.tag) && s.length <= 9999 && s.start <= 99999
  }

  /** Pieces of one width `w` concatenate to `w` bytes per piece. */
  lemma {:induction false} ConcatUniform(pieces: seq<Bytes>, w: nat)
    requires forall k | 0 <= k < |pieces| :: |pieces[k]| == w
    ensures |Concat(pieces)| == w * |pieces|
  {
    if |pieces| > 0 {
      ConcatUniform(pieces[1..], w);
    }
  }

  /** When every slot fits, the directory is twelve bytes per slot and group
      `k` is slot `k` rendered. */
  lemma DirectoryBytesGroup(slots: seq<Slot>, k: nat)
    requires forall j | 0 <= j < |slots| :: SlotFits(slots[j])
    requires k < |slots|
    ensures |DirectoryBytes(slots)| == 12 * |slots|
    ensures DirectoryBytes(slots)[12 * k..12 * k + 12] == RenderSlot(slots[k])
  {
    var pieces := Rendered(slots);
    forall j | 0 <= j < |slots| ensures |pieces[j]| == 12 {
      assert SlotFits(slots[j]);
      EntryBytesLength(slots[j].tag, slots[j].length, slots[j].start);
    }
    ConcatGroup(pieces, k);
  }

  /** Piece `k` of twelve-byte pieces occupies bytes `12 * k` to
      `12 * k + 12` of their concatenation. */
  lemma ConcatGroup(pieces: seq<Bytes>, k: nat)
    requires forall j | 0 <= j < |pieces| :: |pieces[j]| == 12
    requires k < |pieces|
    ensures |Concat(pieces)| == 12 * |pieces|
    ensures Concat(pieces)[12 * k..12 * k + 12] == pieces[k]
  {
    ConcatUniform(pieces, 12);
    ConcatUniform(pieces[..k], 12);
    ConcatSlice(pieces, k);
  }

  /** The directory entry a slot's rendering decodes to. */
  function SlotEntry(s: Slot): DirectoryEntry {
    DirectoryEntry(RenderSlot(s), s.tag, s.length, s.start)
  }

  function SlotEntries(slots: seq<Slot>): (es: seq<DirectoryEntry>)
    ensures |es| == |slots| && forall k | 0 <= k < |slots| :: es[k] == SlotEntry(slots[k])
  {
    seq(|slots|, k requires 0 <= k < |slots| => SlotEntry(slots[k]))
  }

  /** The entries of packed fields record each field's tag, its length and
      the length of the fields before it. */
  lemma PackedEntries(tags: seq<Tag>, payloads: seq<Bytes>)
    requires |tags| == |payloads|
    ensures Places(SlotEntries(PackSlots(tags, payloads, 0)), tags, payloads)
  {
    var slots := PackSlots(tags, payloads, 0);
    var es := SlotEntries(slots);
    forall k | 0 <= k < |es|
      ensures es[k].tag == tags[k] && es[k].fieldLength == |payloads[k]|
      ensures es[k].startingPosition == |Concat(payloads[..k])|
    {
      assert es[k] == SlotEntry(slots[k]);
    }
  }

  /** Entries carrying `tags` and locating `payloads` one after another:
      each records its payload's length and the length of those before it. */
  predicate Places(es: seq<DirectoryEntry>, tags: seq<Tag>, payloads: seq<Bytes>) {
    && |es| == |tags| == |payloads|
    && forall k | 0 <= k < |es| ::
         && es[k].tag == tags[k] && es[k].fieldLength == |payloads[k]|
         && es[k].startingPosition == |Concat(payloads[..k])|
  }

  /** Directory bytes `d` hold the rendered slots, twelve bytes each. */
  predicate HoldsSlots(d: Bytes, slots: seq<Slot>) {
    && |d| == 12 * |slots|
    && forall k | 0 <= k < |slots| :: SlotFits(slots[k]) && d[12 * k..12 * k + 12] == RenderSlot(slots[k])
  }

  /** The directory bytes of fitting slots hold them. */
  lemma DirectoryBytesHold(slots: seq<Slot>)
    requires forall j | 0 <= j < |slots| :: SlotFits(slots[j])
    ensures HoldsSlots(DirectoryBytes(slots), slots)
  {
    DirectoryBytesLength(slots);
    forall k | 0 <= k < |slots|
      ensures DirectoryBytes(slots)[12 * k..12 * k + 12] == RenderSlot(slots[k])
    {
      DirectoryBytesGroup(slots, k);
    }
  }

  lemma DirectoryBytesLength(slots: seq<Slot>)
    requires forall j | 0 <= j < |slots| :: SlotFits(slots[j])
    ensures |DirectoryBytes(slots)| == 12 * |slots|
  {
    if |slots| == 0 {
      assert DirectoryBytes(slots) == Concat([]);
    } else {
      DirectoryBytesGroup(slots, 0);
    }
  }

  /** Rendered slots followed by the field terminator, found at offset `i`,
      are a directory there whose entries are the slots: each group decodes
      to its slot and none begins with the terminator, since a tag byte never
      is one. */
  lemma DirectoryBytesParse(raw: Bytes, i: nat, slots: seq<Slot>, d: Bytes)
    requires HoldsSlots(d, slots)
    requires i + |d| < |raw| && raw[i..i + |d| + 1] == d + [END_OF_FIELD]
    ensures Directory.DirectoryAt(raw, i, SlotEntries(slots))
  {
    TerminatorAfter(raw, i, d);
    GroupsDecode(raw, i, slots, d);
  }

  lemma TerminatorAfter(raw: Bytes, i: nat, d: Bytes)
    requires i + |d| < |raw| && raw[i..i + |d| + 1] == d + [END_OF_FIELD]
    ensures raw[i + |d|] == END_OF_FIELD
  {
    assert raw[i + |d|] == raw[i..i + |d| + 1][|d|];
  }

  lemma GroupsDecode(raw: Bytes, i: nat, slots: seq<Slot>, d: Bytes)
    requires HoldsSlots(d, slots)
    requires i + |d| < |raw| && raw[i..i + |d| + 1] == d + [END_OF_FIELD]
    ensures i + 12 * |slots| <= |raw|
    ensures forall k | 0 <= k < |slots| ::
              && Directory.Group(raw, i, k)[0] != END_OF_FIELD
              && Directory.NewDirectoryEntry(Directory.Group(raw, i, k)) == Ok(SlotEntries(slots)[k])
  {
    forall k | 0 <= k < |slots|
      ensures Directory.Group(raw, i, k)[0] != END_OF_FIELD
      ensures Directory.NewDirectoryEntry(Directory.Group(raw, i, k)) == Ok(SlotEntries(slots)[k])
    {
      assert SlotFits(slots[k]) && d[12 * k..12 * k + 12] == RenderSlot(slots[k]);
      GroupOf(raw, i, d, k, RenderSlot(slots[k]));
      RenderSlotDecodes(slots[k]);
    }
  }

  /** The 12 bytes at `12 * k` of a directory found at offset `i` are group `k`
      from `i`. */
  lemma GroupOf(raw: Bytes, i: nat, d: Bytes, k: nat, g: Bytes)
    requires i + |d| < |raw| && raw[i..i + |d| + 1] == d + [END_OF_FIELD]
    requires 12 * k + 12 <= |d| && d[12 * k..12 * k + 12] == g
    ensures i + 12 * k + 12 <= |raw| && Directory.Group(raw, i, k) == g
  {
    forall j | 0 <= j < 12 ensures Directory.Group(raw, i, k)[j] == g[j] {
      assert Directory.Group(raw, i, k)[j] == raw[i..i + |d| + 1][12 * k + j];
    }
  }

  /** A fitting slot renders to twelve bytes that begin with its tag and
      decode back to it. */
  lemma RenderSlotDecodes(s: Slot)
    requires SlotFits(s)
    ensures |RenderSlot(s)| == 12 && RenderSlot(s)[0] == s.tag[0] && RenderSlot(s)[0] != END_OF_FIELD
    ensures Directory.NewDirectoryEntry(RenderSlot(s)) == Ok(SlotEntry(s))
  {
    Directory.EntryRoundTrip(s.tag, s.length, s.start);
  }

  lemma EntryBytesLength(tag: Tag, length: nat, start: nat)
    requires Tags.ValidTag(tag) && length <= 9999 && start <= 99999
    ensures |Directory.EntryBytes(tag, length, start)| == 12
  {
    assert Pow10(4) == 10000 && Pow10(5) == 100000;
    ZeroPadWidth(length, 4);
    ZeroPadWidth(start, 5);
  }

  /** The leader template with the record length written over positions 0-4
      and the base address over 12-16 (the assembler's five-step loop). */
  function PatchLeader(ldr: Bytes, recLen: Bytes, base: Bytes): (r: Bytes)
    requires |ldr| >= 17 && |recLen| >= 5 && |base| >= 5
    ensures |r| == |ldr|
    ensures forall i | 0 <= i < 5 :: r[i] == recLen[i]
    ensures forall i | 12 <= i < 17 :: r[i] == base[i - 12]
    ensures forall i | 5 <= i < 12 || 17 <= i < |ldr| :: r[i] == ldr[i]
  {
    recLen[..5] + ldr[5..12] + base[..5] + ldr[17..]
  }

  /** Patching keeps the template's other bytes and puts the two numbers
      where `NewLeader` reads them. */
  lemma PatchLeaderReads(ldr: Bytes, recLen: Bytes, base: Bytes)
    requires |ldr| >= 17 && |recLen| >= 5 && |base| >= 5
    ensures PatchLeader(ldr, recLen, base)[0..5] == recLen[..5]
    ensures PatchLeader(ldr, recLen, base)[12..17] == base[..5]
  {
  }
}
