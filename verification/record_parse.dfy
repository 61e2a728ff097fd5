/**
  Decoding a whole record (Marc21Record.go): the leader, the directory, then
  two passes over the directory entries, one for control fields and one for
  data fields, each slicing the field at the leader's base address plus the
  entry's starting position; and the framing checks `NextRecord` applies to
  the bytes a reader hands it.
 */
module RecordParser {
  import opened MarcTypes
  import opened ByteStrings
  import opened SubFieldFormat
  import opened Decimal
  import Tags
  import Leaders
  import Directory

  /** `ParseLeader`: `NewLeader`, with its error wrapped as an invalid record
      length. */
  function ParseLeader(b: Bytes): (r: Result<Leader>)
    ensures r.Ok? <==> Leaders.NewLeader(b).Ok?
    ensures r.Ok? ==> r.value == Leaders.NewLeader(b).value
    ensures !r.Ok? ==> Leaders.NewLeader(b).Err? && r == Err(InvalidRecordLength(Leaders.NewLeader(b).error))
  {
    match Leaders.NewLeader(b)
    case Ok(l) => Ok(l)
    case Err(e) => Err(InvalidRecordLength(e))
    case Panic(s) => Panic(s)
  }

  /** `rawRec[start:start+FieldLength]` with `start` the base address plus the
      entry's starting position; Go panics (None here) unless
      0 <= start <= start + FieldLength <= len(rawRec). */
  function FieldSlice(raw: Bytes, base: int, d: DirectoryEntry): (r: Option<Bytes>)
    ensures r.Some? ==> |r.value| == d.fieldLength
  {
    var start := base + d.startingPosition;
    if 0 <= start && 0 <= d.fieldLength && start + d.fieldLength <= |raw|
    then Some(raw[start..start + d.fieldLength])
    else None
  }

  // ----- control fields -----

  /** What the control-field pass collects: the fields, the tags it complained
      about (logged by Go, returned here) and the remembered control number. */
  datatype ControlScan = ControlScan(fields: seq<ControlField>, anomalies: seq<Tag>, controlNumber: Bytes)

  /** The control-field pass over `dir`, with `controlNumber` the number
      remembered so far. A terminated control slice becomes a field (its data
      is the slice without the terminator); an unterminated one is only noted
      as an anomaly. A second "001" is noted too but still kept; the number is
      taken from the first "001" whose data is not empty. */
  function ControlFieldsFrom(raw: Bytes, base: int, dir: seq<DirectoryEntry>, controlNumber: Bytes)
    : (r: Result<ControlScan>)
    ensures r.Err? ==> r.error == ControlTagIssue
    ensures r.Panic? ==> r.site in {ControlFieldSlice, ControlFieldLastByte}
    ensures r.Ok? ==> |r.value.fields| <= |dir|
    ensures r.Ok? && controlNumber != [] ==> r.value.controlNumber == controlNumber
    decreases |dir|
  {
    if |dir| == 0 then Ok(ControlScan([], [], controlNumber))
    else
      var d := dir[0];
      match Tags.IsControlTag(d.tag)
      case Ok(isControlTag) =>
        if !isControlTag then ControlFieldsFrom(raw, base, dir[1..], controlNumber)
        else
          (match FieldSlice(raw, base, d)
           case None => Panic(ControlFieldSlice)
           case Some(b) =>
             if |b| == 0 then Panic(ControlFieldLastByte)
             else if b[|b| - 1] == END_OF_FIELD then
               var data := b[..|b| - 1];
               var isNumber := d.tag == "001";
               var number := if isNumber && controlNumber == [] then data else controlNumber;
               var anomaly: seq<Tag> := if isNumber && controlNumber != [] then [d.tag] else [];
               var rest :- ControlFieldsFrom(raw, base, dir[1..], number);
               Ok(ControlScan([ControlField(d.tag, data)] + rest.fields, anomaly + rest.anomalies,
                              rest.controlNumber))
             else
               var rest :- ControlFieldsFrom(raw, base, dir[1..], controlNumber);
               Ok(ControlScan(rest.fields, [d.tag] + rest.anomalies, rest.controlNumber)))
      case _ => Err(ControlTagIssue)
  }

  /** `ParseControlFields`: the pass from an empty control number. */
  function ParseControlFields(raw: Bytes, base: int, dir: seq<DirectoryEntry>): (r: Result<ControlScan>)
    ensures r.Err? ==> r.error == ControlTagIssue
    ensures r.Panic? ==> r.site in {ControlFieldSlice, ControlFieldLastByte}
  {
    ControlFieldsFrom(raw, base, dir, [])
  }

  /** The field a directory entry contributes to the control-field pass, if any. */
  function ControlFieldAt(raw: Bytes, base: int, d: DirectoryEntry): Option<ControlField> {
    if Tags.IsControlTag(d.tag) != Ok(true) then None
    else
      match FieldSlice(raw, base, d)
      case Some(b) =>
        if |b| > 0 && b[|b| - 1] == END_OF_FIELD then Some(ControlField(d.tag, b[..|b| - 1])) else None
      case None => None
  }

  /** An entry the control-field pass gets past: its tag classifies, and a
      control entry's slice is in range and not empty. */
  predicate ControlEntryReadable(raw: Bytes, base: int, d: DirectoryEntry) {
    && Tags.IsControlTag(d.tag).Ok?
    && (Tags.IsControlTag(d.tag).value ==> FieldSlice(raw, base, d).Some? && d.fieldLength > 0)
  }

  /** The control-field pass succeeds exactly when every entry is readable;
      an unterminated control slice does not stop it. Its outcome apart from
      the control number and the anomalies does not depend on the number it
      starts from. */
  lemma {:induction false} ControlFieldsOkIff(raw: Bytes, base: int, dir: seq<DirectoryEntry>, c: Bytes)
    ensures ControlFieldsFrom(raw, base, dir, c).Ok?
            <==> forall j | 0 <= j < |dir| :: ControlEntryReadable(raw, base, dir[j])
    decreases |dir|
  {
    if |dir| > 0 {
      var d := dir[0];
      var tail := dir[1..];
      assert forall j | 0 <= j < |tail| :: tail[j] == dir[j + 1];
      var r := ControlFieldsFrom(raw, base, dir, c);
      if ControlEntryReadable(raw, base, d) {
        if Tags.IsControlTag(d.tag).value {
          var b := FieldSlice(raw, base, d).value;
          if b[|b| - 1] == END_OF_FIELD {
            var number := if d.tag == "001" && c == [] then b[..|b| - 1] else c;
            ControlFieldsOkIff(raw, base, tail, number);
          } else {
            ControlFieldsOkIff(raw, base, tail, c);
          }
        } else {
          ControlFieldsOkIff(raw, base, tail, c);
        }
      }
    }
  }

  /** A field is collected exactly when some directory entry holds it: a
      control tag and a terminated slice whose data it is. */
  lemma {:induction false} ControlFieldsMembers(raw: Bytes, base: int, dir: seq<DirectoryEntry>, c: Bytes)
    requires ControlFieldsFrom(raw, base, dir, c).Ok?
    ensures forall cf :: cf in ControlFieldsFrom(raw, base, dir, c).value.fields
                         <==> exists j :: 0 <= j < |dir| && ControlFieldAt(raw, base, dir[j]) == Some(cf)
    decreases |dir|
  {
    if |dir| > 0 {
      var d := dir[0];
      var tail := dir[1..];
      var fields := ControlFieldsFrom(raw, base, dir, c).value.fields;
      var number := c;
      if Tags.IsControlTag(d.tag) == Ok(true) {
        var b := FieldSlice(raw, base, d).value;
        if b[|b| - 1] == END_OF_FIELD && d.tag == "001" && c == [] {
          number := b[..|b| - 1];
        }
      }
      ControlFieldsMembers(raw, base, tail, number);
      var restFields := ControlFieldsFrom(raw, base, tail, number).value.fields;
      assert fields == restFields || fields == [ControlFieldAt(raw, base, d).value] + restFields;
      assert ControlFieldAt(raw, base, d).Some? <==> fields != restFields;
      forall cf
        ensures cf in fields <==> exists j :: 0 <= j < |dir| && ControlFieldAt(raw, base, dir[j]) == Some(cf)
      {
        if exists j :: 0 <= j < |dir| && ControlFieldAt(raw, base, dir[j]) == Some(cf) {
          var j :| 0 <= j < |dir| && ControlFieldAt(raw, base, dir[j]) == Some(cf);
          if j > 0 {
            assert tail[j - 1] == dir[j];
          }
        }
        if cf in restFields {
          var j :| 0 <= j < |tail| && ControlFieldAt(raw, base, tail[j]) == Some(cf);
          assert dir[j + 1] == tail[j];
        }
      }
    }
  }

  /** Two "001" entries, both terminated, with data `x` and then `y`: both
      fields are kept in order; when `x` is not empty it is the control number
      and the second "001" is the one anomaly, but an empty `x` does not count
      as a number, so `y` becomes the number and nothing is noted. */
  lemma DuplicateControlNumber(raw: Bytes, base: int, d1: DirectoryEntry, d2: DirectoryEntry, x: Bytes, y: Bytes)
    requires d1.tag == "001" && d2.tag == "001"
    requires FieldSlice(raw, base, d1) == Some(x + [END_OF_FIELD])
    requires FieldSlice(raw, base, d2) == Some(y + [END_OF_FIELD])
    ensures ParseControlFields(raw, base, [d1, d2]).Ok?
    ensures ParseControlFields(raw, base, [d1, d2]).value.fields == [ControlField("001", x), ControlField("001", y)]
    ensures ParseControlFields(raw, base, [d1, d2]).value.anomalies == (if x != [] then ["001"] else [])
    ensures ParseControlFields(raw, base, [d1, d2]).value.controlNumber == (if x != [] then x else y)
  {
    assert Tags.IsControlTag("001") == Ok(true);
    var bx := x + [END_OF_FIELD];
    var yb := y + [END_OF_FIELD];
    assert bx[..|bx| - 1] == x && yb[..|yb| - 1] == y;
    assert [d1, d2][1..] == [d2];
    assert [d2][1..] == [];
    var last := ControlFieldsFrom(raw, base, [], if x != [] then x else y);
    assert last == Ok(ControlScan([], [], if x != [] then x else y));
    assert Tags.IsControlTag(d2.tag) == Ok(true) && Tags.IsControlTag(d1.tag) == Ok(true);
    assert |yb| > 0 && yb[|yb| - 1] == END_OF_FIELD && |bx| > 0 && bx[|bx| - 1] == END_OF_FIELD;
    assert [ControlField("001", y)] + [] == [ControlField("001", y)];
    var anomaly: seq<Tag> := if x != [] then [d2.tag] else [];
    assert anomaly + [] == anomaly;
    var second := ControlFieldsFrom(raw, base, [d2], x);
    if x != [] {
      assert second == Ok(ControlScan([ControlField("001", y)], ["001"], x));
    } else {
      assert second == Ok(ControlScan([ControlField("001", y)], [], y));
    }
  }

  // ----- data fields -----

  /** The field built from a terminated slice of at least three bytes: the
      indicators are its first two bytes (each as a rune), the subfields come
      from the bytes between them and the terminator. */
  function DataFieldOf(tag: Tag, b: Bytes): DataField
    requires |b| >= 3
  {
    DataField(tag, RuneString(b[0]), RuneString(b[1]), KeepNonEmpty(Split(b[2..|b| - 1], SUBFIELD_INDICATOR)))
  }

  /** The data-field pass over `dir`. Unlike the control-field pass, an
      unterminated slice fails the whole pass. */
  function DataFieldsFrom(raw: Bytes, base: int, dir: seq<DirectoryEntry>): (r: Result<seq<DataField>>)
    ensures r.Err? ==> r.error in {WrongFieldType, FieldTerminatorNotFound}
    ensures r.Panic? ==> r.site in {DataFieldSlice, DataFieldLastByte, DataFieldIndicator, DataFieldSubfields}
    ensures r.Ok? ==> |r.value| <= |dir|
    decreases |dir|
  {
    if |dir| == 0 then Ok([])
    else
      var d := dir[0];
      match Tags.IsControlTag(d.tag)
      case Ok(isControlTag) =>
        if isControlTag then DataFieldsFrom(raw, base, dir[1..])
        else
          (match FieldSlice(raw, base, d)
           case None => Panic(DataFieldSlice)
           case Some(b) =>
             if |b| == 0 then Panic(DataFieldLastByte)
             else if b[|b| - 1] != END_OF_FIELD then Err(FieldTerminatorNotFound)
             else if |b| == 1 then Panic(DataFieldIndicator)
             else if |b| == 2 then Panic(DataFieldSubfields)
             else
               var rest :- DataFieldsFrom(raw, base, dir[1..]);
               Ok([DataFieldOf(d.tag, b)] + rest))
      case _ => Err(WrongFieldType)
  }

  /** `ParseDataFields`. */
  function ParseDataFields(raw: Bytes, base: int, dir: seq<DirectoryEntry>): (r: Result<seq<DataField>>)
    ensures r.Err? ==> r.error in {WrongFieldType, FieldTerminatorNotFound}
    ensures r.Panic? ==> r.site in {DataFieldSlice, DataFieldLastByte, DataFieldIndicator, DataFieldSubfields}
  {
    DataFieldsFrom(raw, base, dir)
  }

  /** An entry the data-field pass gets past: its tag classifies, and a
      non-control entry's slice is in range, at least three bytes long and
      terminated. */
  predicate DataEntryReadable(raw: Bytes, base: int, d: DirectoryEntry) {
    && Tags.IsControlTag(d.tag).Ok?
    && (!Tags.IsControlTag(d.tag).value ==>
          && FieldSlice(raw, base, d).Some? && d.fieldLength >= 3
          && FieldSlice(raw, base, d).value[d.fieldLength - 1] == END_OF_FIELD)
  }

  /** The number of entries whose tag is a control tag. */
  function ControlEntryCount(dir: seq<DirectoryEntry>): (n: nat)
    ensures n <= |dir|
  {
    if |dir| == 0 then 0
    else (if Tags.IsControlTag(dir[0].tag) == Ok(true) then 1 else 0) + ControlEntryCount(dir[1..])
  }

  /** The data-field pass succeeds exactly when every entry is readable, and
      then it yields one field per non-control entry. */
  lemma {:induction false} DataFieldsOkIff(raw: Bytes, base: int, dir: seq<DirectoryEntry>)
    ensures DataFieldsFrom(raw, base, dir).Ok?
            <==> forall j | 0 <= j < |dir| :: DataEntryReadable(raw, base, dir[j])
    ensures DataFieldsFrom(raw, base, dir).Ok? ==>
              |DataFieldsFrom(raw, base, dir).value| == |dir| - ControlEntryCount(dir)
    decreases |dir|
  {
    if |dir| > 0 {
      var tail := dir[1..];
      assert forall j | 0 <= j < |tail| :: tail[j] == dir[j + 1];
      DataFieldsOkIff(raw, base, tail);
    }
  }

  /** A field is produced exactly when some non-control entry's slice makes it. */
  lemma {:induction false} DataFieldsMembers(raw: Bytes, base: int, dir: seq<DirectoryEntry>)
    requires DataFieldsFrom(raw, base, dir).Ok?
    ensures forall df :: df in DataFieldsFrom(raw, base, dir).value <==>
              exists j :: && 0 <= j < |dir| && Tags.IsControlTag(dir[j].tag) == Ok(false)
                          && FieldSlice(raw, base, dir[j]).Some? && dir[j].fieldLength >= 3
                          && df == DataFieldOf(dir[j].tag, FieldSlice(raw, base, dir[j]).value)
    decreases |dir|
  {
    if |dir| > 0 {
      var tail := dir[1..];
      DataFieldsMembers(raw, base, tail);
      var dfs := DataFieldsFrom(raw, base, dir).value;
      var rest := DataFieldsFrom(raw, base, tail).value;
      forall df
        ensures df in dfs <==>
          exists j :: && 0 <= j < |dir| && Tags.IsControlTag(dir[j].tag) == Ok(false)
                      && FieldSlice(raw, base, dir[j]).Some? && dir[j].fieldLength >= 3
                      && df == DataFieldOf(dir[j].tag, FieldSlice(raw, base, dir[j]).value)
      {
        if df in rest {
          var j :| && 0 <= j < |tail| && Tags.IsControlTag(tail[j].tag) == Ok(false)
                   && FieldSlice(raw, base, tail[j]).Some? && tail[j].fieldLength >= 3
                   && df == DataFieldOf(tail[j].tag, FieldSlice(raw, base, tail[j]).value);
          assert dir[j + 1] == tail[j];
        }
        if exists j :: && 0 <= j < |dir| && Tags.IsControlTag(dir[j].tag) == Ok(false)
                       && FieldSlice(raw, base, dir[j]).Some? && dir[j].fieldLength >= 3
                       && df == DataFieldOf(dir[j].tag, FieldSlice(raw, base, dir[j]).value) {
          var j :| && 0 <= j < |dir| && Tags.IsControlTag(dir[j].tag) == Ok(false)
                   && FieldSlice(raw, base, dir[j]).Some? && dir[j].fieldLength >= 3
                   && df == DataFieldOf(dir[j].tag, FieldSlice(raw, base, dir[j]).value);
          if j > 0 {
            assert tail[j - 1] == dir[j];
          }
        }
      }
    }
  }

  /** Both passes fail as soon as a directory tag does not classify, as "000"
      does not; neither can succeed on such a directory. */
  lemma UnclassifiedTagFailsBoth(raw: Bytes, base: int, dir: seq<DirectoryEntry>, j: nat)
    requires j < |dir| && dir[j].tag == "000"
    ensures !ParseControlFields(raw, base, dir).Ok?
    ensures !ParseDataFields(raw, base, dir).Ok?
  {
    assert !Tags.IsControlTag(dir[j].tag).Ok?;
    ControlFieldsOkIff(raw, base, dir, []);
    DataFieldsOkIff(raw, base, dir);
  }

  // ----- directories laid out field by field -----

  /** Entry `d` holds control field `cf`: the field's control tag, and a
      slice that is the field's data followed by the field terminator. */
  predicate HoldsControlField(raw: Bytes, base: int, d: DirectoryEntry, cf: ControlField) {
    && d.tag == cf.tag && Tags.IsControlTag(d.tag) == Ok(true)
    && FieldSlice(raw, base, d) == Some(cf.data + [END_OF_FIELD])
  }

  /** Entry `d` holds data field `df`: a data tag, and a terminated slice of
      at least three bytes that the data-field pass reads as `df`. */
  predicate HoldsDataField(raw: Bytes, base: int, d: DirectoryEntry, df: DataField) {
    && Tags.IsControlTag(d.tag) == Ok(false)
    && FieldSlice(raw, base, d).Some? && d.fieldLength >= 3
    && FieldSlice(raw, base, d).value[d.fieldLength - 1] == END_OF_FIELD
    && DataFieldOf(d.tag, FieldSlice(raw, base, d).value) == df
  }

  /** Entries holding the control fields `cfs`, followed only by data
      entries: the control-field pass collects exactly `cfs`, whatever number
      it starts from. */
  lemma {:induction false} ControlPassCollects(raw: Bytes, base: int, dir: seq<DirectoryEntry>,
                                               cfs: seq<ControlField>, c: Bytes)
    requires |cfs| <= |dir|
    requires forall k | 0 <= k < |cfs| :: HoldsControlField(raw, base, dir[k], cfs[k])
    requires forall k | |cfs| <= k < |dir| :: Tags.IsControlTag(dir[k].tag) == Ok(false)
    ensures ControlFieldsFrom(raw, base, dir, c).Ok?
    ensures ControlFieldsFrom(raw, base, dir, c).value.fields == cfs
    decreases |dir|
  {
    if |dir| > 0 {
      var tail := dir[1..];
      if |cfs| > 0 {
        assert HoldsControlField(raw, base, dir[0], cfs[0]);
        var b := cfs[0].data + [END_OF_FIELD];
        assert b[..|b| - 1] == cfs[0].data;
        var number := if dir[0].tag == "001" && c == [] then cfs[0].data else c;
        assert forall k | 0 <= k < |cfs| - 1 :: HoldsControlField(raw, base, tail[k], cfs[1..][k]) by {
          forall k | 0 <= k < |cfs| - 1 ensures HoldsControlField(raw, base, tail[k], cfs[1..][k]) {
            assert tail[k] == dir[k + 1] && cfs[1..][k] == cfs[k + 1];
          }
        }
        assert forall k | |cfs| - 1 <= k < |tail| :: Tags.IsControlTag(tail[k].tag) == Ok(false) by {
          forall k | |cfs| - 1 <= k < |tail| ensures Tags.IsControlTag(tail[k].tag) == Ok(false) {
            assert tail[k] == dir[k + 1];
          }
        }
        ControlPassCollects(raw, base, tail, cfs[1..], number);
        assert [cfs[0]] + cfs[1..] == cfs;
      } else {
        assert Tags.IsControlTag(dir[0].tag) == Ok(false);
        assert forall k | 0 <= k < |tail| :: Tags.IsControlTag(tail[k].tag) == Ok(false) by {
          forall k | 0 <= k < |tail| ensures Tags.IsControlTag(tail[k].tag) == Ok(false) {
            assert tail[k] == dir[k + 1];
          }
        }
        ControlPassCollects(raw, base, tail, cfs, c);
      }
    }
  }

  /** `m` control entries followed by entries holding the data fields `dfs`:
      the data-field pass yields exactly `dfs`. */
  lemma DataPassCollects(raw: Bytes, base: int, dir: seq<DirectoryEntry>, m: nat, dfs: seq<DataField>)
    requires m + |dfs| == |dir|
    requires forall k | 0 <= k < m :: Tags.IsControlTag(dir[k].tag) == Ok(true)
    requires forall k | 0 <= k < |dfs| :: HoldsDataField(raw, base, dir[m + k], dfs[k])
    ensures DataFieldsFrom(raw, base, dir) == Ok(dfs)
  {
    DataPassSkipsAll(raw, base, dir, m);
    var rest := dir[m..];
    forall k | 0 <= k < |dfs| ensures HoldsDataField(raw, base, rest[k], dfs[k]) {
      assert rest[k] == dir[m + k];
    }
    DataPassTakesAll(raw, base, rest, dfs);
  }

  /** The data-field pass passes over a run of control entries. */
  lemma {:induction false} DataPassSkipsAll(raw: Bytes, base: int, dir: seq<DirectoryEntry>, m: nat)
    requires m <= |dir|
    requires forall k | 0 <= k < m :: Tags.IsControlTag(dir[k].tag) == Ok(true)
    ensures DataFieldsFrom(raw, base, dir) == DataFieldsFrom(raw, base, dir[m..])
    decreases m
  {
    if m > 0 {
      DataPassSkips(raw, base, dir);
      var tail := dir[1..];
      forall k | 0 <= k < m - 1 ensures Tags.IsControlTag(tail[k].tag) == Ok(true) {
        assert tail[k] == dir[k + 1];
      }
      DataPassSkipsAll(raw, base, tail, m - 1);
      assert tail[m - 1..] == dir[m..];
    }
  }

  /** Entries holding the data fields `dfs`, one each, are read as `dfs`. */
  lemma {:induction false} DataPassTakesAll(raw: Bytes, base: int, dir: seq<DirectoryEntry>, dfs: seq<DataField>)
    requires |dfs| == |dir|
    requires forall k | 0 <= k < |dfs| :: HoldsDataField(raw, base, dir[k], dfs[k])
    ensures DataFieldsFrom(raw, base, dir) == Ok(dfs)
    decreases |dir|
  {
    if |dir| > 0 {
      var tail := dir[1..];
      var more := dfs[1..];
      forall k | 0 <= k < |more| ensures HoldsDataField(raw, base, tail[k], more[k]) {
        assert tail[k] == dir[k + 1] && more[k] == dfs[k + 1];
      }
      DataPassTakesAll(raw, base, tail, more);
      DataPassTakes(raw, base, dir, dfs[0]);
      assert [dfs[0]] + more == dfs;
    }
  }

  /** The data-field pass passes over a control entry. */
  lemma DataPassSkips(raw: Bytes, base: int, dir: seq<DirectoryEntry>)
    requires |dir| > 0 && Tags.IsControlTag(dir[0].tag) == Ok(true)
    ensures DataFieldsFrom(raw, base, dir) == DataFieldsFrom(raw, base, dir[1..])
  {
  }

  /** The data-field pass reads an entry holding `df` as `df`. */
  lemma DataPassTakes(raw: Bytes, base: int, dir: seq<DirectoryEntry>, df: DataField)
    requires |dir| > 0 && HoldsDataField(raw, base, dir[0], df)
    requires DataFieldsFrom(raw, base, dir[1..]).Ok?
    ensures DataFieldsFrom(raw, base, dir) == Ok([df] + DataFieldsFrom(raw, base, dir[1..]).value)
  {
  }

  /** The data-field pass over two directories in a row reads the first,
      then the second: its result is the two results concatenated. */
  lemma {:induction false} DataFieldsAppend(raw: Bytes, base: int, d1: seq<DirectoryEntry>, d2: seq<DirectoryEntry>)
    requires DataFieldsFrom(raw, base, d1).Ok? && DataFieldsFrom(raw, base, d2).Ok?
    ensures DataFieldsFrom(raw, base, d1 + d2)
            == Ok(DataFieldsFrom(raw, base, d1).value + DataFieldsFrom(raw, base, d2).value)
    decreases |d1|
  {
    var v2 := DataFieldsFrom(raw, base, d2).value;
    if |d1| == 0 {
      assert d1 + d2 == d2;
      assert [] + v2 == v2;
    } else {
      assert (d1 + d2)[0] == d1[0];
      assert (d1 + d2)[1..] == d1[1..] + d2;
      DataFieldsAppend(raw, base, d1[1..], d2);
      if Tags.IsControlTag(d1[0].tag) != Ok(true) {
        var df := DataFieldOf(d1[0].tag, FieldSlice(raw, base, d1[0]).value);
        var v1 := DataFieldsFrom(raw, base, d1[1..]).value;
        assert DataFieldsFrom(raw, base, d1).value == [df] + v1;
        ConcatAssoc([df], v1, v2);
      }
    }
  }

  /** The control-field pass over two directories in a row: the second part
      starts from the number the first part remembered, and the fields and
      anomalies of the two parts are concatenated. */
  lemma {:induction false} ControlFieldsAppend(raw: Bytes, base: int, d1: seq<DirectoryEntry>, d2: seq<DirectoryEntry>,
                                               c: Bytes, s1: ControlScan, s2: ControlScan)
    requires ControlFieldsFrom(raw, base, d1, c) == Ok(s1)
    requires ControlFieldsFrom(raw, base, d2, s1.controlNumber) == Ok(s2)
    ensures ControlFieldsFrom(raw, base, d1 + d2, c)
            == Ok(ControlScan(s1.fields + s2.fields, s1.anomalies + s2.anomalies, s2.controlNumber))
    decreases |d1|
  {
    if |d1| == 0 {
      assert d1 + d2 == d2;
      assert [] + s2.fields == s2.fields && [] + s2.anomalies == s2.anomalies;
    } else {
      var d := d1[0];
      assert (d1 + d2)[0] == d;
      assert (d1 + d2)[1..] == d1[1..] + d2;
      if Tags.IsControlTag(d.tag) != Ok(true) {
        ControlFieldsAppend(raw, base, d1[1..], d2, c, s1, s2);
      } else {
        var b := FieldSlice(raw, base, d).value;
        if b[|b| - 1] == END_OF_FIELD {
          ControlTerminatedAppend(raw, base, d1, d2, c, s1, s2, b);
        } else {
          ControlUnterminatedAppend(raw, base, d1, d2, c, s1, s2);
        }
      }
    }
  }

  /** The step of `ControlFieldsAppend` for a first entry that holds a
      terminated control field `b`. */
  lemma {:induction false} ControlTerminatedAppend(raw: Bytes, base: int, d1: seq<DirectoryEntry>, d2: seq<DirectoryEntry>,
                                                   c: Bytes, s1: ControlScan, s2: ControlScan, b: Bytes)
    requires |d1| > 0 && Tags.IsControlTag(d1[0].tag) == Ok(true)
    requires FieldSlice(raw, base, d1[0]) == Some(b) && |b| > 0 && b[|b| - 1] == END_OF_FIELD
    requires ControlFieldsFrom(raw, base, d1, c) == Ok(s1)
    requires ControlFieldsFrom(raw, base, d2, s1.controlNumber) == Ok(s2)
    ensures ControlFieldsFrom(raw, base, d1 + d2, c)
            == Ok(ControlScan(s1.fields + s2.fields, s1.anomalies + s2.anomalies, s2.controlNumber))
    decreases |d1|, 0
  {
    var d := d1[0];
    var e := d1 + d2;
    assert e[0] == d && e[1..] == d1[1..] + d2;
    var cf := ControlField(d.tag, b[..|b| - 1]);
    var number := if d.tag == "001" && c == [] then b[..|b| - 1] else c;
    var anomaly: seq<Tag> := if d.tag == "001" && c != [] then [d.tag] else [];
    ControlConsOk(raw, base, d1, c, b, number);
    var r1 := ControlFieldsFrom(raw, base, d1[1..], number).value;
    ControlCons(raw, base, d1, c, b, number, anomaly, r1);
    ControlFieldsAppend(raw, base, d1[1..], d2, number, r1, s2);
    ControlCons(raw, base, e, c, b, number, anomaly, ControlScan(r1.fields + s2.fields, r1.anomalies + s2.anomalies, s2.controlNumber));
    ConcatAssoc([cf], r1.fields, s2.fields);
    ConcatAssoc(anomaly, r1.anomalies, s2.anomalies);
  }


  /** One step of the control-field pass over a terminated control field
      `b`: the field and any anomaly go in front of what the pass over the
      rest, from the number it now remembers, collects. */
  lemma ControlCons(raw: Bytes, base: int, dir: seq<DirectoryEntry>, c: Bytes, b: Bytes, number: Bytes,
                    anomaly: seq<Tag>, rest: ControlScan)
    requires |dir| > 0 && Tags.IsControlTag(dir[0].tag) == Ok(true)
    requires FieldSlice(raw, base, dir[0]) == Some(b) && |b| > 0 && b[|b| - 1] == END_OF_FIELD
    requires number == if dir[0].tag == "001" && c == [] then b[..|b| - 1] else c
    requires anomaly == if dir[0].tag == "001" && c != [] then [dir[0].tag] else []
    requires ControlFieldsFrom(raw, base, dir[1..], number) == Ok(rest)
    ensures ControlFieldsFrom(raw, base, dir, c)
            == Ok(ControlScan([ControlField(dir[0].tag, b[..|b| - 1])] + rest.fields, anomaly + rest.anomalies,
                              rest.controlNumber))
  {
  }

  /** The pass over the rest succeeds when the pass over the whole does. */
  lemma ControlConsOk(raw: Bytes, base: int, dir: seq<DirectoryEntry>, c: Bytes, b: Bytes, number: Bytes)
    requires |dir| > 0 && Tags.IsControlTag(dir[0].tag) == Ok(true)
    requires FieldSlice(raw, base, dir[0]) == Some(b) && |b| > 0 && b[|b| - 1] == END_OF_FIELD
    requires number == if dir[0].tag == "001" && c == [] then b[..|b| - 1] else c
    requires ControlFieldsFrom(raw, base, dir, c).Ok?
    ensures ControlFieldsFrom(raw, base, dir[1..], number).Ok?
  {
  }

  /** The step of `ControlFieldsAppend` for a first entry whose control field
      lacks its terminator. */
  lemma {:induction false} ControlUnterminatedAppend(raw: Bytes, base: int, d1: seq<DirectoryEntry>, d2: seq<DirectoryEntry>,
                                                     c: Bytes, s1: ControlScan, s2: ControlScan)
    requires |d1| > 0 && Tags.IsControlTag(d1[0].tag) == Ok(true)
    requires ControlFieldsFrom(raw, base, d1, c) == Ok(s1)
    requires FieldSlice(raw, base, d1[0]).value[|FieldSlice(raw, base, d1[0]).value| - 1] != END_OF_FIELD
    requires ControlFieldsFrom(raw, base, d2, s1.controlNumber) == Ok(s2)
    ensures ControlFieldsFrom(raw, base, d1 + d2, c)
            == Ok(ControlScan(s1.fields + s2.fields, s1.anomalies + s2.anomalies, s2.controlNumber))
    decreases |d1|, 0
  {
    var d := d1[0];
    assert (d1 + d2)[0] == d;
    assert (d1 + d2)[1..] == d1[1..] + d2;
    var r1 := ControlFieldsFrom(raw, base, d1[1..], c).value;
    assert s1 == ControlScan(r1.fields, [d.tag] + r1.anomalies, r1.controlNumber);
    ControlFieldsAppend(raw, base, d1[1..], d2, c, r1, s2);
    ConcatAssoc([d.tag], r1.anomalies, s2.anomalies);
  }

  // ----- records -----

  /** `ParseRecord`: the leader from the first 24 bytes, the directory from
      offset 24, then both field passes at the leader's base address, which is
      not checked against the directory's length. Go never fills `Raw`, so
      the record's raw bytes stay empty. */
  function ParseRecord(raw: Bytes): (r: Result<Record>)
    ensures |raw| < LEADER_LEN ==> r == Panic(LeaderSlice)
    ensures r.Ok? ==> && |raw| >= LEADER_LEN
                      && Leaders.NewLeader(raw[..LEADER_LEN]) == Ok(r.value.leader)
                      && Directory.DirectoryAt(raw, LEADER_LEN, r.value.entries)
                      && ParseControlFields(raw, r.value.leader.baseAddressOfData, r.value.entries).Ok?
                      && r.value.controlFields
                         == ParseControlFields(raw, r.value.leader.baseAddressOfData, r.value.entries).value.fields
                      && ParseDataFields(raw, r.value.leader.baseAddressOfData, r.value.entries)
                         == Ok(r.value.dataFields)
                      && r.value.raw == []
  {
    if |raw| < LEADER_LEN then Panic(LeaderSlice)
    else
      var leader :- ParseLeader(raw[..LEADER_LEN]);
      var entries :- Directory.ParseDirectory(raw);
      var scan :- ParseControlFields(raw, leader.baseAddressOfData, entries);
      var dataFields :- ParseDataFields(raw, leader.baseAddressOfData, entries);
      Ok(Record([], leader, entries, scan.fields, dataFields))
  }

  /** Both field passes over `raw`, with base address `base` and entries
      `es`, collect exactly the control fields `cfs` and the data fields
      `dfs`. */
  predicate FieldsRead(raw: Bytes, base: int, es: seq<DirectoryEntry>,
                       cfs: seq<ControlField>, dfs: seq<DataField>) {
    && ParseControlFields(raw, base, es).Ok?
    && ParseControlFields(raw, base, es).value.fields == cfs
    && ParseDataFields(raw, base, es) == Ok(dfs)
  }

  /** A leader, a directory and two passes that all succeed make the record
      `ParseRecord` returns. */
  lemma ParseRecordParts(raw: Bytes, l: Leader, es: seq<DirectoryEntry>,
                         cfs: seq<ControlField>, dfs: seq<DataField>)
    requires |raw| >= LEADER_LEN && Leaders.NewLeader(raw[..LEADER_LEN]) == Ok(l)
    requires Directory.ParseDirectory(raw) == Ok(es)
    requires FieldsRead(raw, l.baseAddressOfData, es, cfs, dfs)
    ensures ParseRecord(raw) == Ok(Record([], l, es, cfs, dfs))
  {
  }

  // ----- framing -----

  /** A record cut from the front of a stream, and what the stream still holds. */
  datatype Framed = Framed(record: Bytes, rest: Bytes)

  /** The five-byte buffer of the first read: the stream's first bytes, with
      zero bytes left where the stream ran out. */
  function LengthBuffer(stream: Bytes): (buf: Bytes)
    ensures |buf| == 5
    ensures |stream| >= 5 ==> buf == stream[..5]
  {
    if |stream| >= 5 then stream[..5] else stream + seq(5 - |stream|, _ => 0 as char)
  }

  /** `NextRecord` over an in-memory reader that hands out as many bytes as it
      still has: end of stream when it is empty; the record length from the
      first five bytes; rejected when not above 24 or above 99999; end of
      stream when nothing follows those five bytes; and a missing record
      terminator when the last byte of the record length is not 0x1D, which
      is also the outcome of a stream that ends early, since the unread bytes
      stay zero. */
  function NextRecord(stream: Bytes): (r: Result<Framed>)
    ensures r.Ok? <==> && |stream| >= 5 && Atoi(stream[..5]).Ok?
                       && LEADER_LEN < Atoi(stream[..5]).value <= MAX_RECORD_LEN
                       && Atoi(stream[..5]).value <= |stream|
                       && stream[Atoi(stream[..5]).value - 1] == END_OF_RECORD
    ensures r.Ok? ==> && r.value.record + r.value.rest == stream
                      && |r.value.record| == Atoi(stream[..5]).value
                      && r.value.record[|r.value.record| - 1] == END_OF_RECORD
    ensures |stream| == 0 ==> r == Err(EndOfStream)
    ensures |stream| >= 5 && Atoi(stream[..5]).Ok? && Atoi(stream[..5]).value <= LEADER_LEN ==> r == Err(RecordTooShort)
    ensures |stream| >= 5 && Atoi(stream[..5]).Ok? && Atoi(stream[..5]).value > MAX_RECORD_LEN ==> r == Err(RecordTooLong)
  {
    if |stream| == 0 then Err(EndOfStream)
    else
      var recLen :- Atoi(LengthBuffer(stream));
      if recLen <= LEADER_LEN then Err(RecordTooShort)
      else if recLen > MAX_RECORD_LEN then Err(RecordTooLong)
      else if |stream| == 5 then Err(EndOfStream)
      else if |stream| < recLen then Err(RecordTerminatorNotFound)
      else if stream[recLen - 1] != END_OF_RECORD then Err(RecordTerminatorNotFound)
      else
        assert stream[..recLen] + stream[recLen..] == stream;
        Ok(Framed(stream[..recLen], stream[recLen..]))
  }

  /** A stream of fewer than five bytes fails on the record length: the zero
      bytes that fill the buffer are not digits. */
  lemma ShortStreamHasNoLength(stream: Bytes)
    requires 0 < |stream| < 5
    ensures NextRecord(stream) == Err(NotANumber)
  {
    var buf := LengthBuffer(stream);
    assert buf[4] == 0 as char && !IsDigit(buf[4]);
  }

  /** Framing is exact: a record that declares its own length in its first
      five bytes, lies within the length bounds and ends with 0x1D is cut off
      the front of any stream whole, leaving the rest of the stream. */
  lemma FramingRoundTrip(rec: Bytes, rest: Bytes)
    requires LEADER_LEN < |rec| <= MAX_RECORD_LEN
    requires Atoi(rec[..5]) == Ok(|rec|)
    requires rec[|rec| - 1] == END_OF_RECORD
    ensures NextRecord(rec + rest) == Ok(Framed(rec, rest))
  {
    var stream := rec + rest;
    assert stream[..5] == rec[..5];
    assert stream[..|rec|] == rec && stream[|rec|..] == rest;
  }

  /** A stream whose first five bytes declare a length `n` within the bounds
      and within the stream is cut after byte `n` when that byte is 0x1D, and
      is otherwise rejected for a missing record terminator. */
  lemma FramingCut(stream: Bytes, n: int)
    requires LEADER_LEN < n <= MAX_RECORD_LEN && 5 < n <= |stream|
    requires Atoi(stream[..5]) == Ok(n)
    ensures NextRecord(stream).Ok? <==> stream[n - 1] == END_OF_RECORD
    ensures !NextRecord(stream).Ok? ==> NextRecord(stream) == Err(RecordTerminatorNotFound)
    ensures NextRecord(stream).Ok? ==> NextRecord(stream).value == Framed(stream[..n], stream[n..])
  {
  }
}
