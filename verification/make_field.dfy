/**
  Building a data field from a tag string and the field's bytes, and
  selecting subfields by code (pkg/marc21/Marc21Field.go).
 */
module FieldMaker {
  import opened MarcTypes
  import opened ByteStrings
  import opened SubFieldFormat
  import Tags

  /** `MakeDataField`: the tag must be accepted by `NewTagByStr` and must not be
      a control tag (an `IsControlTag` error, as for "000", is ignored); the
      data must hold more than two bytes for the indicators and at least four
      in all. The subfields come from the bytes after position 3, split on
      0x1F, keeping segments longer than one byte. Go also returns the
      partly filled field with each error; only the error is modelled. */
  function MakeDataField(tag: Bytes, data: Bytes): (r: Result<DataField>)
    ensures r.Ok? <==> Tags.ValidTag(tag) && Tags.IsControlTag(tag) != Ok(true) && |data| >= 4
    ensures !Tags.ValidTag(tag) ==> r == Err(InvalidTagString)
    ensures Tags.ValidTag(tag) && Tags.IsControlTag(tag) == Ok(true) ==> r == Err(UseMakeControlField)
    ensures Tags.ValidTag(tag) && Tags.IsControlTag(tag) != Ok(true) && |data| <= 2 ==> r == Err(InvalidIndicators)
    ensures Tags.ValidTag(tag) && Tags.IsControlTag(tag) != Ok(true) && |data| == 3 ==> r == Err(BadSubFieldsLength)
    ensures r.Ok? ==> && r.value.tag == tag
                      && r.value.indicator1 == RuneString(data[0])
                      && r.value.indicator2 == RuneString(data[1])
                      && |r.value.subFields| <= |Split(data[3..], SUBFIELD_INDICATOR)|
                      && forall k | 0 <= k < |r.value.subFields| :: r.value.subFields[k].data != []
  {
    match Tags.NewTagByStr(tag)
    case Ok(t) =>
      var isControlTag := Tags.IsControlTag(t) == Ok(true);
      if isControlTag then Err(UseMakeControlField)
      else if |data| <= 2 then Err(InvalidIndicators)
      else if |data| < 4 then Err(BadSubFieldsLength)
      else
        Ok(DataField(t, RuneString(data[0]), RuneString(data[1]),
                     KeepLongerThanOne(Split(data[3..], SUBFIELD_INDICATOR))))
    case _ => Err(InvalidTagString)
  }

  /** The accepted case spelled out, for the proofs below. */
  lemma MakeDataFieldAccepts(tag: Bytes, data: Bytes)
    requires Tags.ValidTag(tag) && Tags.IsControlTag(tag) != Ok(true) && |data| >= 4
    ensures MakeDataField(tag, data)
            == Ok(DataField(tag, RuneString(data[0]), RuneString(data[1]),
                            KeepLongerThanOne(Split(data[3..], SUBFIELD_INDICATOR))))
  {
  }

  /** Every subfield `MakeDataField` returns could be written back: its code
      is non-empty and does not start with 0x1F, and its data is non-empty and
      holds no 0x1F. */
  lemma MakeDataFieldClean(tag: Bytes, data: Bytes)
    requires MakeDataField(tag, data).Ok?
    ensures var sfs := MakeDataField(tag, data).value.subFields;
            DelimiterFree(sfs) && forall k | 0 <= k < |sfs| :: sfs[k].data != []
  {
    MakeDataFieldAccepts(tag, data);
    SplitJoin(data[3..], SUBFIELD_INDICATOR);
    KeepLongerThanOneClean(Split(data[3..], SUBFIELD_INDICATOR));
  }

  /** Nothing after position 3 is lost when every segment between delimiters
      has an ASCII code byte and data: the subfields write back as a
      delimiter followed by exactly those bytes. */
  lemma MakeDataFieldKeepsLayout(tag: Bytes, data: Bytes)
    requires MakeDataField(tag, data).Ok?
    requires CodedSegments(Split(data[3..], SUBFIELD_INDICATOR))
    ensures SubFieldsBytes(MakeDataField(tag, data).value.subFields) == [SUBFIELD_INDICATOR] + data[3..]
  {
    MakeDataFieldAccepts(tag, data);
    var segs := Split(data[3..], SUBFIELD_INDICATOR);
    var sfs := KeepLongerThanOne(segs);
    KeepLongerThanOneLayout(segs);
    SubFieldsBytesIsJoin(sfs);
    SplitJoin(data[3..], SUBFIELD_INDICATOR);
    var all := [[]] + segs;
    assert all[0] == [] && all[1..] == segs;
    assert Join(all, SUBFIELD_INDICATOR) == [] + [SUBFIELD_INDICATOR] + Join(segs, SUBFIELD_INDICATOR);
  }

  /** Two ASCII indicators followed by the layout of at least one encodable
      subfield with data make exactly that field: `MakeDataField` skips the
      first delimiter at position 2 and splits the rest. */
  lemma MakeDataFieldRoundTrip(tag: Bytes, ind1: Byte, ind2: Byte, sfs: seq<SubField>)
    requires Tags.ValidTag(tag) && Tags.IsControlTag(tag) != Ok(true)
    requires ind1 as int < 0x80 && ind2 as int < 0x80
    requires |sfs| > 0 && AllEncodable(sfs)
    requires forall k | 0 <= k < |sfs| :: sfs[k].data != []
    ensures MakeDataField(tag, [ind1, ind2] + SubFieldsBytes(sfs)) == Ok(DataField(tag, [ind1], [ind2], sfs))
  {
    var body := SubFieldsBytes(sfs);
    var data := [ind1, ind2] + body;
    SplitAfterFirstDelimiter(sfs);
    KeepLongerThanOneSegments(sfs);
    assert KeepLongerThanOne(Split(body[1..], SUBFIELD_INDICATOR)) == sfs;
    IndicatorsAndRest(ind1, ind2, body);
    MakeDataFieldAccepts(tag, data);
  }

  /** Two bytes in front of a layout that starts with a delimiter: the rest
      after position 3 is the layout without its delimiter. */
  lemma IndicatorsAndRest(ind1: Byte, ind2: Byte, body: Bytes)
    requires |body| > 0
    ensures var data := [ind1, ind2] + body;
            |data| >= 3 && data[0] == ind1 && data[1] == ind2 && data[3..] == body[1..]
  {
  }

  /** A subfield whose data is empty never comes out of `MakeDataField`: the
      code byte alone is dropped, so of the subfields `code data` and `code`
      only the first survives. */
  lemma MakeDataFieldDropsCodeOnly(tag: Bytes, ind1: Byte, ind2: Byte, code: Byte, data: Bytes)
    requires Tags.ValidTag(tag) && Tags.IsControlTag(tag) != Ok(true)
    requires ind1 as int < 0x80 && ind2 as int < 0x80
    requires code as int < 0x80 && code != SUBFIELD_INDICATOR
    requires data != [] && Free(data, SUBFIELD_INDICATOR)
    ensures var sfs := [SubField([code], data), SubField([code], [])];
            MakeDataField(tag, [ind1, ind2] + SubFieldsBytes(sfs))
              == Ok(DataField(tag, [ind1], [ind2], [SubField([code], data)]))
  {
    var sfs := [SubField([code], data), SubField([code], [])];
    assert Encodable(sfs[0]) && Encodable(sfs[1]);
    assert AllEncodable(sfs);
    var bytes := [ind1, ind2] + SubFieldsBytes(sfs);
    assert bytes[0] == ind1 && bytes[1] == ind2;
    assert bytes[3..] == SubFieldsBytes(sfs)[1..];
    MakeDataFieldAccepts(tag, bytes);
    SplitAfterFirstDelimiter(sfs);
    var segs := Segments(sfs);
    assert segs[0] == [code] + data && segs[1] == [code];
    var tail := segs[1..];
    assert |tail| == 1 && |tail[0]| == 1 && tail[1..] == [];
    assert KeepLongerThanOne(tail) == [];
    assert segs[0][0] == code && segs[0][1..] == data && |segs[0]| > 1;
    assert RuneString(code) == [code];
    assert KeepLongerThanOne(segs) == [SubField([code], data)] + KeepLongerThanOne(tail);
    assert [SubField([code], data)] + KeepLongerThanOne(tail) == [SubField([code], data)];
  }

  /** `xs` is `ys` with some elements left out, the rest in their order. */
  ghost predicate SubsequenceOf<T>(xs: seq<T>, ys: seq<T>)
    decreases |ys|
  {
    if |xs| == 0 then true
    else if |ys| == 0 then false
    else (xs[0] == ys[0] && SubsequenceOf(xs[1..], ys[1..])) || SubsequenceOf(xs, ys[1..])
  }

  /** `GetSubFields`: the subfields whose code occurs in `filter`, in their
      original order (a copy of each; the source's `Value: sub.Value` names a
      field the subfield type does not have, read here as its data). */
  function GetSubFields(df: DataField, filter: Bytes): (r: seq<SubField>)
    ensures forall sf :: sf in r <==> sf in df.subFields && Contains(filter, sf.code)
    ensures SubsequenceOf(r, df.subFields)
  {
    SelectByCode(df.subFields, filter)
  }

  function SelectByCode(sfs: seq<SubField>, filter: Bytes): (r: seq<SubField>)
    ensures forall sf :: sf in r <==> sf in sfs && Contains(filter, sf.code)
    ensures SubsequenceOf(r, sfs)
  {
    if |sfs| == 0 then []
    else
      var rest := SelectByCode(sfs[1..], filter);
      assert forall sf :: sf in sfs <==> sf == sfs[0] || sf in sfs[1..] by {
        assert sfs == [sfs[0]] + sfs[1..];
      }
      if Contains(filter, sfs[0].code) then
        assert ([sfs[0]] + rest)[1..] == rest;
        [SubField(sfs[0].code, sfs[0].data)] + rest
      else rest
  }

  /** A one-subfield list keeps its subfield exactly when the filter holds
      its code. */
  lemma SelectByCodeSingle(sf: SubField, filter: Bytes)
    ensures SelectByCode([sf], filter) == if Contains(filter, sf.code) then [sf] else []
  {
    assert [sf][1..] == [];
  }

  /** Selection distributes over concatenation: with `SelectByCodeSingle`
      this says the result is the matching subfields in their order. */
  lemma {:induction false} SelectByCodeAppend(a: seq<SubField>, b: seq<SubField>, filter: Bytes)
    ensures SelectByCode(a + b, filter) == SelectByCode(a, filter) + SelectByCode(b, filter)
  {
    if |a| == 0 {
      assert a + b == b;
    } else {
      assert (a + b)[0] == a[0];
      assert (a + b)[1..] == a[1..] + b;
      SelectByCodeAppend(a[1..], b, filter);
    }
  }

  /** A filter that holds every code selects the whole list, and a subfield
      with an empty code is selected by every filter. */
  lemma {:induction false} SelectAll(sfs: seq<SubField>, filter: Bytes)
    requires forall k | 0 <= k < |sfs| :: Contains(filter, sfs[k].code)
    ensures SelectByCode(sfs, filter) == sfs
  {
    if |sfs| > 0 {
      SelectAll(sfs[1..], filter);
      assert [sfs[0]] + sfs[1..] == sfs;
    }
  }

  lemma EmptyCodeAlwaysSelected(sf: SubField, filter: Bytes)
    requires sf.code == []
    ensures SelectByCode([sf], filter) == [sf]
  {
    assert OccursAt(filter, [], 0);
  }
}
