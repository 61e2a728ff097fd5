/**
  The record directory (Marc21RecordDirectory.go and `ParseDirectory` in
  Marc21Record.go): 12-byte entries of tag(3) field length(4) starting
  position(5), read from offset 24 up to the first group that begins with
  the field terminator.
 */
module Directory {
  import opened MarcTypes
  import opened Decimal
  import Tags

  /** `NewDirectoryEntry`: 12 bytes, a tag `NewTag` accepts, and two parts
      `Atoi` accepts; checked in that order. */
  function NewDirectoryEntry(b: Bytes): (r: Result<DirectoryEntry>)
    ensures r.Ok? <==> |b| == 12 && Tags.ValidTag(b[0..3]) && Atoi(b[3..7]).Ok? && Atoi(b[7..12]).Ok?
    ensures EntryError(b, r)
    ensures r.Ok? ==> && r.value.raw == b && r.value.tag == b[0..3]
                      && r.value.fieldLength == Atoi(b[3..7]).value
                      && r.value.startingPosition == Atoi(b[7..12]).value
  {
    if |b| != 12 then Err(BadEntryLength)
    else
      match Tags.NewTag(b[0..3])
      case Ok(tag) =>
        (match Atoi(b[3..7])
         case Ok(fieldLength) =>
           (match Atoi(b[7..12])
            case Ok(startingPosition) => Ok(DirectoryEntry(b, tag, fieldLength, startingPosition))
            case _ => Err(StartingPositionIsInvalid))
         case _ => Err(FieldLengthIsInvalid))
      case _ => Err(TagIsInvalid)
  }

  /** The error `NewDirectoryEntry` reports for each way `b` can fail, in the
      order of the checks: length, tag, field length, starting position. */
  predicate EntryError(b: Bytes, r: Result<DirectoryEntry>) {
    && (|b| != 12 ==> r == Err(BadEntryLength))
    && (|b| == 12 && !Tags.ValidTag(b[0..3]) ==> r == Err(TagIsInvalid))
    && (|b| == 12 && Tags.ValidTag(b[0..3]) && !Atoi(b[3..7]).Ok? ==> r == Err(FieldLengthIsInvalid))
    && (|b| == 12 && Tags.ValidTag(b[0..3]) && Atoi(b[3..7]).Ok? && !Atoi(b[7..12]).Ok?
        ==> r == Err(StartingPositionIsInvalid))
  }

  /** `DirectoryEntry.GetRaw`. */
  function GetRaw(e: DirectoryEntry): Bytes {
    e.raw
  }

  /** `DirectoryEntry.GetFieldLength`. */
  function GetFieldLength(e: DirectoryEntry): int {
    e.fieldLength
  }

  /** `DirectoryEntry.GetStartingPosition`. */
  function GetStartingPosition(e: DirectoryEntry): int {
    e.startingPosition
  }

  /** `DirectoryEntry.GetTag`: the tag's string. */
  function GetTag(e: DirectoryEntry): Bytes {
    Tags.GetTag(e.tag)
  }

  /** The getters of a decoded entry give back its 12 bytes and the three
      parts read from them. */
  lemma EntryGetters(b: Bytes)
    requires NewDirectoryEntry(b).Ok?
    ensures var e := NewDirectoryEntry(b).value;
            && GetRaw(e) == b && GetTag(e) == b[0..3]
            && GetFieldLength(e) == Atoi(b[3..7]).value
            && GetStartingPosition(e) == Atoi(b[7..12]).value
  {
  }

  /** One directory entry as the assembler writes it: the tag, the length
      zero-padded to four digits and the start zero-padded to five. */
  function EntryBytes(tag: Tag, fieldLength: nat, start: nat): Bytes {
    tag + ZeroPad(fieldLength, 4) + ZeroPad(start, 5)
  }

  /** Entry rendering and `NewDirectoryEntry` are inverse on every valid tag,
      length below 10000 and start below 100000. */
  lemma EntryRoundTrip(tag: Tag, fieldLength: nat, start: nat)
    requires Tags.ValidTag(tag) && fieldLength <= 9999 && start <= 99999
    ensures |EntryBytes(tag, fieldLength, start)| == 12
    ensures NewDirectoryEntry(EntryBytes(tag, fieldLength, start))
              == Ok(DirectoryEntry(EntryBytes(tag, fieldLength, start), tag, fieldLength, start))
  {
    var len := ZeroPad(fieldLength, 4);
    var pos := ZeroPad(start, 5);
    assert Pow10(4) == 10000 && Pow10(5) == 100000;
    ZeroPadWidth(fieldLength, 4);
    ZeroPadWidth(start, 5);
    AtoiOfZeroPad(fieldLength, 4);
    AtoiOfZeroPad(start, 5);
    EntryParts(tag, len, pos);
    EntryDecodes(tag + len + pos, tag, fieldLength, start);
  }

  /** The three parts of a 12-byte entry sit at offsets 0, 3 and 7. */
  lemma EntryParts(tag: Bytes, len: Bytes, pos: Bytes)
    requires |tag| == 3 && |len| == 4 && |pos| == 5
    ensures |tag + len + pos| == 12
    ensures (tag + len + pos)[0..3] == tag && (tag + len + pos)[3..7] == len && (tag + len + pos)[7..12] == pos
  {
  }

  /** Twelve bytes whose parts are a valid tag and two numbers decode to the
      entry holding those values. */
  lemma EntryDecodes(b: Bytes, tag: Tag, fieldLength: int, start: int)
    requires |b| == 12 && b[0..3] == tag && Tags.ValidTag(tag)
    requires Atoi(b[3..7]) == Ok(fieldLength) && Atoi(b[7..12]) == Ok(start)
    ensures NewDirectoryEntry(b) == Ok(DirectoryEntry(b, tag, fieldLength, start))
  {
  }

  /** The 12-byte group `k` of a directory that starts at offset `i`. */
  function Group(raw: Bytes, i: nat, k: nat): Bytes
    requires i + 12 * k + 12 <= |raw|
  {
    raw[i + 12 * k .. i + 12 * k + 12]
  }

  /** `raw` holds, from offset `i`, the groups that decode to `es`, none of
      them beginning with the field terminator, followed by that terminator. */
  ghost predicate DirectoryAt(raw: Bytes, i: nat, es: seq<DirectoryEntry>) {
    && i + 12 * |es| < |raw|
    && raw[i + 12 * |es|] == END_OF_FIELD
    && forall k | 0 <= k < |es| ::
         Group(raw, i, k)[0] != END_OF_FIELD && NewDirectoryEntry(Group(raw, i, k)) == Ok(es[k])
  }

  /** The loop of `ParseDirectory` from offset `i`: a panic when offset `i` or
      the 12 bytes from it lie past the end, an error when a group is refused. */
  function ParseDirectoryFrom(raw: Bytes, i: nat): (r: Result<seq<DirectoryEntry>>)
    ensures r.Ok? ==> DirectoryAt(raw, i, r.value)
    ensures r.Err? ==> r.error in {TagIsInvalid, FieldLengthIsInvalid, StartingPositionIsInvalid}
    ensures r.Panic? ==> r.site in {DirectoryIndex, DirectorySlice}
    decreases |raw| - i
  {
    if i >= |raw| then Panic(DirectoryIndex)
    else if raw[i] == END_OF_FIELD then Ok([])
    else if i + 12 > |raw| then Panic(DirectorySlice)
    else
      match NewDirectoryEntry(raw[i..i + 12])
      case Ok(e) =>
        (match ParseDirectoryFrom(raw, i + 12)
         case Ok(rest) =>
           DirectoryAtCons(raw, i, e, rest);
           Ok([e] + rest)
         case Err(err) => Err(err)
         case Panic(site) => Panic(site))
      case Err(err) => Err(err)
      case Panic(site) => Panic(site)
  }

  /** `ParseDirectory`: the scan always starts right after the 24-byte
      leader, whatever base address the leader declares. */
  function ParseDirectory(raw: Bytes): (r: Result<seq<DirectoryEntry>>)
    ensures r.Ok? ==> DirectoryAt(raw, LEADER_LEN, r.value)
    ensures r.Ok? ==> LEADER_LEN + DIRECTORY_ENTRY_LEN * |r.value| < |raw|
  {
    ParseDirectoryFrom(raw, LEADER_LEN)
  }

  /** Group `k + 1` from offset `i` is group `k` from offset `i + 12`. */
  lemma GroupShift(raw: Bytes, i: nat, k: nat)
    requires i + 12 * (k + 1) + 12 <= |raw|
    ensures Group(raw, i, k + 1) == Group(raw, i + 12, k)
  {
  }

  /** One accepted group in front of a directory at `i + 12` makes a
      directory at `i`. */
  lemma DirectoryAtCons(raw: Bytes, i: nat, e: DirectoryEntry, rest: seq<DirectoryEntry>)
    requires i + 12 <= |raw| && raw[i] != END_OF_FIELD
    requires NewDirectoryEntry(raw[i..i + 12]) == Ok(e)
    requires DirectoryAt(raw, i + 12, rest)
    ensures DirectoryAt(raw, i, [e] + rest)
  {
    var es := [e] + rest;
    var j := i + 12;
    assert i + 12 * |es| == j + 12 * |rest|;
    assert i + 12 * |es| < |raw| && raw[i + 12 * |es|] == END_OF_FIELD;
    forall k | 0 <= k < |es|
      ensures Group(raw, i, k)[0] != END_OF_FIELD && NewDirectoryEntry(Group(raw, i, k)) == Ok(es[k])
    {
      if k == 0 {
        assert Group(raw, i, 0) == raw[i..i + 12];
        assert raw[i..i + 12][0] == raw[i];
      } else {
        GroupAt(raw, j, rest, k - 1);
        GroupShift(raw, i, k - 1);
        assert es[k] == rest[k - 1];
      }
    }
    assert DirectoryAt(raw, i, es);
  }

  /** A non-empty directory at `i` is its first group in front of a directory
      at `i + 12`. */
  lemma DirectoryAtUncons(raw: Bytes, i: nat, es: seq<DirectoryEntry>)
    requires |es| > 0 && DirectoryAt(raw, i, es)
    ensures i + 12 <= |raw| && raw[i] != END_OF_FIELD
    ensures NewDirectoryEntry(raw[i..i + 12]) == Ok(es[0])
    ensures DirectoryAt(raw, i + 12, es[1..])
  {
    GroupAt(raw, i, es, 0);
    assert Group(raw, i, 0) == raw[i..i + 12];
    assert raw[i..i + 12][0] == raw[i];
    var tail := es[1..];
    var j := i + 12;
    assert i + 12 * |es| == j + 12 * |tail|;
    assert j + 12 * |tail| < |raw| && raw[j + 12 * |tail|] == END_OF_FIELD;
    forall k | 0 <= k < |tail|
      ensures Group(raw, j, k)[0] != END_OF_FIELD
      ensures NewDirectoryEntry(Group(raw, j, k)) == Ok(tail[k])
    {
      GroupAt(raw, i, es, k + 1);
      GroupShift(raw, i, k);
      assert tail[k] == es[k + 1];
    }
    assert DirectoryAt(raw, j, tail);
  }

  /** Group `k` of a directory at `i` decodes to entry `k`. */
  lemma GroupAt(raw: Bytes, i: nat, es: seq<DirectoryEntry>, k: nat)
    requires DirectoryAt(raw, i, es) && k < |es|
    ensures i + 12 * k + 12 <= |raw|
    ensures Group(raw, i, k)[0] != END_OF_FIELD && NewDirectoryEntry(Group(raw, i, k)) == Ok(es[k])
  {
  }

  /** Conversely, a directory laid out as `DirectoryAt` describes is exactly
      what the scan returns: the layout determines the result. */
  lemma {:induction false} DirectoryAtParses(raw: Bytes, i: nat, es: seq<DirectoryEntry>)
    requires DirectoryAt(raw, i, es)
    ensures ParseDirectoryFrom(raw, i) == Ok(es)
    decreases |es|
  {
    if |es| > 0 {
      DirectoryAtUncons(raw, i, es);
      DirectoryAtParses(raw, i + 12, es[1..]);
      ParseDirectoryCons(raw, i, es[0], es[1..]);
      assert [es[0]] + es[1..] == es;
    } else {
      assert raw[i + 12 * |es|] == raw[i];
    }
  }

  /** One accepted group in front of what the scan from `i + 12` returns. */
  lemma ParseDirectoryCons(raw: Bytes, i: nat, e: DirectoryEntry, rest: seq<DirectoryEntry>)
    requires i + 12 <= |raw| && raw[i] != END_OF_FIELD
    requires NewDirectoryEntry(raw[i..i + 12]) == Ok(e)
    requires ParseDirectoryFrom(raw, i + 12) == Ok(rest)
    ensures ParseDirectoryFrom(raw, i) == Ok([e] + rest)
  {
  }

  /** The entries occupy the groups at offsets 24, 36, ...: the scan reads one
      group per entry and nothing else. */
  lemma ParseDirectoryIff(raw: Bytes, es: seq<DirectoryEntry>)
    ensures ParseDirectory(raw) == Ok(es) <==> DirectoryAt(raw, LEADER_LEN, es)
  {
    if DirectoryAt(raw, LEADER_LEN, es) {
      DirectoryAtParses(raw, LEADER_LEN, es);
    }
  }
}
