/**
  The methods of the decoded fields: control fields (Marc21ControlField.go),
  data fields (Marc21DataField.go) and subfields
  (pkg/marc21/Marc21SubFieldList.go), including their "mnemonic" one-line
  renderings `=TAG  ...` used by the assembler and by record dumps.
 */
module Fields {
  import opened MarcTypes
  import opened ByteStrings
  import Tags

  // ----- control fields -----

  /** `ControlField.String`: "=" + tag + two blanks + data. */
  function ControlFieldString(cf: ControlField): (s: Bytes)
    ensures |s| == |cf.tag| + |cf.data| + 3
    ensures s[0] == '=' && s[1..1 + |cf.tag|] == cf.tag
    ensures s[1 + |cf.tag|..|cf.tag| + 3] == "  "
    ensures s[|cf.tag| + 3..] == cf.data
  {
    "=" + cf.tag + "  " + cf.data
  }

  /** The inverse of `ControlFieldString` for three-byte tags: the tag sits at
      positions 1-3 and the data starts at position 6. */
  function ControlFieldFromString(s: Bytes): Option<ControlField> {
    if |s| >= 6 && s[0] == '=' && s[4..6] == "  " then Some(ControlField(s[1..4], s[6..])) else None
  }

  /** The mnemonic line of a control field with a three-byte tag loses nothing. */
  lemma ControlFieldStringRoundTrip(cf: ControlField)
    requires |cf.tag| == 3
    ensures ControlFieldFromString(ControlFieldString(cf)) == Some(cf)
  {
    var s := ControlFieldString(cf);
    assert s[4..6] == "  ";
  }

  /** `ControlField.GetTag`. */
  function ControlFieldTag(cf: ControlField): Tag {
    cf.tag
  }

  /** `ControlField.GetData`. */
  function GetData(cf: ControlField): Bytes {
    cf.data
  }

  /** `ControlField.Contains`: false unless the tag is a valid control tag;
      then a case-insensitive substring test on the data. */
  function ControlFieldContains(cf: ControlField, str: Bytes): (b: bool)
    ensures b <==> Tags.IsControlTag(cf.tag) == Ok(true)
                   && exists i :: OccursAt(ToLower(cf.data), ToLower(str), i)
  {
    var lowered := ToLower(str);
    match Tags.IsControlTag(cf.tag)
    case Ok(isControlField) => isControlField && Contains(ToLower(cf.data), lowered)
    case _ => false
  }

  // ----- subfields -----

  /** `SubField.String`: "$" + code + data. */
  function SubFieldString(sf: SubField): (s: Bytes)
    ensures |s| == 1 + |sf.code| + |sf.data|
    ensures s[0] == '$' && s[1..1 + |sf.code|] == sf.code && s[1 + |sf.code|..] == sf.data
  {
    "$" + sf.code + sf.data
  }

  /** Reading a rendered subfield back: a dollar sign, a one-byte code and the
      data. */
  function SubFieldFromString(s: Bytes): (r: Option<SubField>)
    ensures r.Some? <==> |s| >= 2 && s[0] == '$'
    ensures r.Some? ==> |r.value.code| == 1 && "$" + r.value.code + r.value.data == s
  {
    if |s| >= 2 && s[0] == '$' then Some(SubField(s[1..2], s[2..])) else None
  }

  /** A subfield with a one-byte code renders to text that reads back as the
      same subfield. */
  lemma SubFieldStringRoundTrip(sf: SubField)
    requires |sf.code| == 1
    ensures SubFieldFromString(SubFieldString(sf)) == Some(sf)
  {
  }

  /** `SubField.GetCode`. */
  function GetCode(sf: SubField): Bytes {
    sf.code
  }

  /** `SubField.GetValue`. */
  function GetValue(sf: SubField): Bytes {
    sf.data
  }

  /** `AddSubField`, `RemoveAllSubFields` and `ReplaceSubField` have value
      receivers and empty bodies: the subfield a caller holds is unchanged.
      Each is modelled as its own function, as each is its own method. */
  function AddSubField(sf: SubField, code: Bytes, value: Bytes): (r: SubField)
    ensures r == sf
  {
    sf
  }

  /** `RemoveAllSubFields`: separate in the source, the same empty body. */
  function RemoveAllSubFields(sf: SubField, code: Bytes): (r: SubField)
    ensures r == sf
  {
    sf
  }

  /** `ReplaceSubField`: separate in the source, the same empty body. */
  function ReplaceSubField(sf: SubField, code: Bytes, value: Bytes): (r: SubField)
    ensures r == sf
  {
    sf
  }

  // ----- data fields -----

  /** `DataField.GetTag`. */
  function DataFieldTag(df: DataField): Tag {
    df.tag
  }

  /** `GetIndicator1`: a blank stands in for a missing indicator. */
  function GetIndicator1(df: DataField): (ind: Bytes)
    ensures ind != []
    ensures df.indicator1 != [] ==> ind == df.indicator1
    ensures df.indicator1 == [] ==> ind == " "
  {
    if df.indicator1 == [] then " " else df.indicator1
  }

  /** `GetIndicator2`: a blank stands in for a missing indicator. */
  function GetIndicator2(df: DataField): (ind: Bytes)
    ensures ind != []
    ensures df.indicator2 != [] ==> ind == df.indicator2
    ensures df.indicator2 == [] ==> ind == " "
  {
    if df.indicator2 == [] then " " else df.indicator2
  }

  /** `formatIndicator`: a blank indicator is shown as a backslash; any other
      value is shown as it is, so the result is never a blank. */
  function FormatIndicator(value: Bytes): (shown: Bytes)
    ensures shown != " "
    ensures value != " " ==> shown == value
    ensures shown == "\\" <==> value == " " || value == "\\"
  {
    if value == " " then "\\" else value
  }

  /** The subfields rendered one after another. */
  function SubFieldsText(sfs: seq<SubField>): Bytes {
    if |sfs| == 0 then [] else SubFieldString(sfs[0]) + SubFieldsText(sfs[1..])
  }

  /** A one-subfield list renders as that subfield's text. */
  lemma SubFieldsTextSingle(sf: SubField)
    ensures SubFieldsText([sf]) == SubFieldString(sf)
  {
  }

  /** Rendering distributes over concatenation of subfield lists, so the text
      keeps the subfields in order. */
  lemma {:induction false} SubFieldsTextAppend(a: seq<SubField>, b: seq<SubField>)
    ensures SubFieldsText(a + b) == SubFieldsText(a) + SubFieldsText(b)
  {
    if |a| > 0 {
      SubFieldsTextAppend(a[1..], b);
      assert (a + b)[0] == a[0] && (a + b)[1..] == a[1..] + b;
    } else {
      assert a + b == b;
    }
  }

  /** Every subfield's text takes one '$', its code and its data. */
  lemma {:induction false} SubFieldsTextLength(sfs: seq<SubField>)
    ensures |SubFieldsText(sfs)| >= |sfs|
  {
    if |sfs| > 0 {
      SubFieldsTextLength(sfs[1..]);
    }
  }

  /** `DataField.String`: "=" + tag + two blanks + the two formatted stored
      indicators (not the defaulted ones) + "$code data" per subfield in order. */
  function DataFieldString(df: DataField): (s: Bytes)
    ensures var head := "=" + df.tag + "  " + FormatIndicator(df.indicator1) + FormatIndicator(df.indicator2);
            |head| <= |s| && s[..|head|] == head && s[|head|..] == SubFieldsText(df.subFields)
  {
    "=" + df.tag + "  " + FormatIndicator(df.indicator1) + FormatIndicator(df.indicator2)
      + SubFieldsText(df.subFields)
  }

  /** `DataField.Contains`: whether some subfield's data holds `str`, ignoring
      ASCII case; never true for a field without subfields. */
  function SubFieldsContain(sfs: seq<SubField>, lowered: Bytes): (b: bool)
    ensures b <==> exists k, i :: 0 <= k < |sfs| && OccursAt(ToLower(sfs[k].data), lowered, i)
  {
    if |sfs| == 0 then false
    else if Contains(ToLower(sfs[0].data), lowered) then true
    else
      var b := SubFieldsContain(sfs[1..], lowered);
      assert b ==> exists k, i :: 0 <= k < |sfs| && OccursAt(ToLower(sfs[k].data), lowered, i) by {
        if b {
          var k, i :| 0 <= k < |sfs[1..]| && OccursAt(ToLower(sfs[1..][k].data), lowered, i);
          assert OccursAt(ToLower(sfs[k + 1].data), lowered, i);
        }
      }
      b
  }

  function DataFieldContains(df: DataField, str: Bytes): (b: bool)
    ensures b <==> exists k, i :: 0 <= k < |df.subFields|
                                  && OccursAt(ToLower(df.subFields[k].data), ToLower(str), i)
  {
    SubFieldsContain(df.subFields, ToLower(str))
  }

  /** The empty string is in every field that has a subfield, and nothing is
      in a field that has none. */
  lemma DataFieldContainsEdges(df: DataField, str: Bytes)
    ensures df.subFields == [] ==> !DataFieldContains(df, str)
    ensures df.subFields != [] ==> DataFieldContains(df, [])
  {
    if df.subFields != [] {
      assert OccursAt(ToLower(df.subFields[0].data), ToLower([]), 0);
    }
  }
}
