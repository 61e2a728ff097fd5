/**
  Queries on a decoded record (Marc21Record.go): the data fields with given
  tags, and the control number.
 */
module RecordQuery {
  import opened MarcTypes
  import opened ByteStrings
  import RecordParser
  import Tags

  /** The fields tagged `t`, in record order. */
  function FieldsWithTag(dfs: seq<DataField>, t: Bytes): (r: seq<DataField>)
    ensures forall df :: df in r <==> df in dfs && df.tag == t
    ensures |r| <= |dfs|
  {
    if |dfs| == 0 then []
    else
      var rest := FieldsWithTag(dfs[1..], t);
      assert forall df :: df in dfs <==> df == dfs[0] || df in dfs[1..] by {
        assert dfs == [dfs[0]] + dfs[1..];
      }
      if dfs[0].tag == t then [dfs[0]] + rest else rest
  }

  /** The fields of each tag of `tags` in turn. */
  function FieldsWithTags(dfs: seq<DataField>, tags: seq<Bytes>): (r: seq<DataField>)
    ensures forall df :: df in r <==> df in dfs && df.tag in tags
  {
    if |tags| == 0 then []
    else
      assert forall t :: t in tags <==> t == tags[0] || t in tags[1..] by {
        assert tags == [tags[0]] + tags[1..];
      }
      FieldsWithTag(dfs, tags[0]) + FieldsWithTags(dfs, tags[1..])
  }

  /** `GetDatafields`: every data field for the empty list; otherwise the
      fields whose tag is one of the comma-separated tags, grouped by tag in
      list order and in record order within a tag. */
  function GetDatafields(rec: Record, tags: Bytes): (r: seq<DataField>)
    ensures tags == [] ==> r == rec.dataFields
    ensures tags != [] ==> forall df :: df in r <==> df in rec.dataFields && df.tag in Split(tags, ',')
  {
    if tags == [] then rec.dataFields else FieldsWithTags(rec.dataFields, Split(tags, ','))
  }

  /** A single tag selects exactly the fields with that tag, all of them when
      every field has it. */
  lemma {:induction false} FieldsWithTagAll(dfs: seq<DataField>, t: Bytes)
    requires forall k | 0 <= k < |dfs| :: dfs[k].tag == t
    ensures FieldsWithTag(dfs, t) == dfs
  {
    if |dfs| > 0 {
      FieldsWithTagAll(dfs[1..], t);
      assert [dfs[0]] + dfs[1..] == dfs;
    }
  }

  lemma GetDatafieldsSingleTag(rec: Record, t: Bytes)
    requires t != [] && Free(t, ',')
    ensures GetDatafields(rec, t) == FieldsWithTag(rec.dataFields, t)
  {
    SplitFree(t, ',');
    var tags: seq<Bytes> := [t];
    assert tags[1..] == [];
    assert FieldsWithTags(rec.dataFields, tags) == FieldsWithTag(rec.dataFields, t) + [];
    assert FieldsWithTag(rec.dataFields, t) + [] == FieldsWithTag(rec.dataFields, t);
  }

  /** A one-field list keeps its field exactly when the tag matches. */
  lemma FieldsWithTagSingle(df: DataField, t: Bytes)
    ensures FieldsWithTag([df], t) == if df.tag == t then [df] else []
  {
    assert [df][1..] == [];
  }

  /** Selection distributes over concatenation: with `FieldsWithTagSingle`
      this says the result is the matching fields in record order. */
  lemma {:induction false} FieldsWithTagAppend(a: seq<DataField>, b: seq<DataField>, t: Bytes)
    ensures FieldsWithTag(a + b, t) == FieldsWithTag(a, t) + FieldsWithTag(b, t)
  {
    if |a| == 0 {
      assert a + b == b;
    } else {
      assert (a + b)[0] == a[0];
      assert (a + b)[1..] == a[1..] + b;
      FieldsWithTagAppend(a[1..], b, t);
    }
  }

  /** The groups follow the tag list: the tags of `ts1 + ts2` select the
      groups of `ts1` and then those of `ts2`. */
  lemma {:induction false} FieldsWithTagsAppend(dfs: seq<DataField>, ts1: seq<Bytes>, ts2: seq<Bytes>)
    ensures FieldsWithTags(dfs, ts1 + ts2) == FieldsWithTags(dfs, ts1) + FieldsWithTags(dfs, ts2)
  {
    if |ts1| == 0 {
      assert ts1 + ts2 == ts2;
    } else {
      assert (ts1 + ts2)[0] == ts1[0];
      assert (ts1 + ts2)[1..] == ts1[1..] + ts2;
      FieldsWithTagsAppend(dfs, ts1[1..], ts2);
    }
  }

  /** A comma between two non-empty tag lists concatenates their results. */
  lemma GetDatafieldsJoin(rec: Record, a: Bytes, b: Bytes)
    requires a != [] && b != []
    ensures GetDatafields(rec, a + "," + b) == GetDatafields(rec, a) + GetDatafields(rec, b)
  {
    SplitAppend(a, b, ',');
    FieldsWithTagsAppend(rec.dataFields, Split(a, ','), Split(b, ','));
  }

  /** Naming a tag twice returns its fields twice: the groups follow the list,
      duplicates included. */
  lemma GetDatafieldsRepeatedTag(rec: Record, t: Bytes)
    requires t != [] && Free(t, ',')
    ensures GetDatafields(rec, t + "," + t) == GetDatafields(rec, t) + GetDatafields(rec, t)
  {
    SplitFree(t, ',');
    SplitPrefix(t, t, ',');
    var tags := Split(t + "," + t, ',');
    assert tags == [t, t];
    var tail := tags[1..];
    assert tail == [t] && |tail[1..]| == 0;
    GetDatafieldsSingleTag(rec, t);
    var g := FieldsWithTag(rec.dataFields, t);
    assert FieldsWithTags(rec.dataFields, [t]) == g + [];
    assert g + [] == g;
  }

  // ----- control number -----

  /** The data of the first "001" field, or nothing. */
  function FirstNumber(cfs: seq<ControlField>): Bytes {
    if |cfs| == 0 then [] else if cfs[0].tag == "001" then cfs[0].data else FirstNumber(cfs[1..])
  }

  /** `ControlNum`: the data of the first field tagged "001", or the empty
      string when there is none. */
  function ControlNum(rec: Record): (n: Bytes)
    ensures (forall k | 0 <= k < |rec.controlFields| :: rec.controlFields[k].tag != "001") ==> n == []
    ensures forall k | 0 <= k < |rec.controlFields| ::
              rec.controlFields[k].tag == "001" && (forall j | 0 <= j < k :: rec.controlFields[j].tag != "001")
              ==> n == rec.controlFields[k].data
  {
    FirstNumberSpec(rec.controlFields);
    FirstNumber(rec.controlFields)
  }

  lemma {:induction false} FirstNumberSpec(cfs: seq<ControlField>)
    ensures (forall k | 0 <= k < |cfs| :: cfs[k].tag != "001") ==> FirstNumber(cfs) == []
    ensures forall k | 0 <= k < |cfs| ::
              cfs[k].tag == "001" && (forall j | 0 <= j < k :: cfs[j].tag != "001") ==> FirstNumber(cfs) == cfs[k].data
  {
    if |cfs| > 0 {
      FirstNumberSpec(cfs[1..]);
      forall k | 0 <= k < |cfs| && cfs[k].tag == "001" && (forall j | 0 <= j < k :: cfs[j].tag != "001")
        ensures FirstNumber(cfs) == cfs[k].data
      {
        if k > 0 {
          assert cfs[1..][k - 1] == cfs[k];
          assert forall j | 0 <= j < k - 1 :: cfs[1..][j].tag != "001" by {
            forall j | 0 <= j < k - 1 ensures cfs[1..][j].tag != "001" {
              assert cfs[1..][j] == cfs[j + 1];
            }
          }
        }
      }
      if forall k | 0 <= k < |cfs| :: cfs[k].tag != "001" {
        assert forall k | 0 <= k < |cfs[1..]| :: cfs[1..][k].tag != "001" by {
          forall k | 0 <= k < |cfs[1..]| ensures cfs[1..][k].tag != "001" {
            assert cfs[1..][k] == cfs[k + 1];
          }
        }
      }
    }
  }

  /** The data of the first "001" field whose data is not empty, or nothing:
      the number the control-field pass remembers. */
  function FirstNonEmptyNumber(cfs: seq<ControlField>): Bytes {
    if |cfs| == 0 then []
    else if cfs[0].tag == "001" && cfs[0].data != [] then cfs[0].data
    else FirstNonEmptyNumber(cfs[1..])
  }

  /** The number the control-field pass remembers is the starting number if
      there was one, else the first non-empty "001" data among the fields it
      collects. */
  lemma {:induction false} ScanNumber(raw: Bytes, base: int, dir: seq<DirectoryEntry>, c: Bytes)
    requires RecordParser.ControlFieldsFrom(raw, base, dir, c).Ok?
    ensures var s := RecordParser.ControlFieldsFrom(raw, base, dir, c).value;
            s.controlNumber == if c != [] then c else FirstNonEmptyNumber(s.fields)
    decreases |dir|
  {
    if |dir| > 0 {
      var d := dir[0];
      var tail := dir[1..];
      if Tags.IsControlTag(d.tag) == Ok(true) {
        var b := RecordParser.FieldSlice(raw, base, d).value;
        if b[|b| - 1] == END_OF_FIELD {
          var data := b[..|b| - 1];
          var number := if d.tag == "001" && c == [] then data else c;
          ScanNumber(raw, base, tail, number);
          var rest := RecordParser.ControlFieldsFrom(raw, base, tail, number).value;
          var fields := [ControlField(d.tag, data)] + rest.fields;
          assert fields[1..] == rest.fields;
        } else {
          ScanNumber(raw, base, tail, c);
        }
      } else {
        ScanNumber(raw, base, tail, c);
      }
    }
  }

  /** `ControlNum` of a decoded record agrees with the number the decoder
      remembered, unless the first "001" field is empty: then `ControlNum`
      gives the empty string while the decoder took a later "001". */
  lemma ControlNumMatchesParser(raw: Bytes, base: int, dir: seq<DirectoryEntry>)
    requires RecordParser.ParseControlFields(raw, base, dir).Ok?
    ensures var s := RecordParser.ParseControlFields(raw, base, dir).value;
            FirstNumber(s.fields) != [] ==> s.controlNumber == FirstNumber(s.fields)
  {
    ScanNumber(raw, base, dir, []);
    FirstNonEmptyAgrees(RecordParser.ParseControlFields(raw, base, dir).value.fields);
  }

  lemma {:induction false} FirstNonEmptyAgrees(cfs: seq<ControlField>)
    ensures FirstNumber(cfs) != [] ==> FirstNonEmptyNumber(cfs) == FirstNumber(cfs)
  {
    if |cfs| > 0 {
      FirstNonEmptyAgrees(cfs[1..]);
    }
  }
}
