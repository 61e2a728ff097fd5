/**
  Field tags (pkg/marc21/Marc21Tag.go): construction from three bytes and the
  control / data classification, which follows the MARCXML slim schema
  patterns `00[1-9A-Za-z]` for control tags and
  `0([1-9a-z][0-9a-z])|([1-9a-z][0-9a-z]{2})` (either case) for data tags,
  both widened by the source to every byte in '0'..'z'.
 */
module Tags {
  import opened MarcTypes

  /** The bytes `NewTag` accepts: '0'..'z', which takes in the digits, both
      letter cases and the punctuation between them. */
  predicate InTagRange(c: Byte) {
    '0' <= c <= 'z'
  }

  predicate ValidTag(b: Bytes) {
    |b| == 3 && InTagRange(b[0]) && InTagRange(b[1]) && InTagRange(b[2])
  }

  /** A tag beginning with two zeroes: the control-field block 00X. */
  predicate HasControlPrefix(t: Tag) {
    |t| == 3 && t[0] == '0' && t[1] == '0'
  }

  /** `NewTag`: exactly three bytes, each in '0'..'z'; Go hands back the empty
      tag together with the error otherwise. */
  function NewTag(b: Bytes): (r: Result<Tag>)
    ensures r.Ok? <==> ValidTag(b)
    ensures r.Ok? ==> r.value == b
    ensures |b| != 3 ==> r == Err(BadTagLength)
    ensures |b| == 3 && !ValidTag(b) ==> r == Err(InvalidTagBytes)
  {
    if |b| != 3 then Err(BadTagLength)
    else if InTagRange(b[0]) && InTagRange(b[1]) && InTagRange(b[2]) then Ok(b)
    else Err(InvalidTagBytes)
  }

  /** `NewTagByStr`: `NewTag` on the bytes of a string, which are the same bytes. */
  function NewTagByStr(s: Bytes): (r: Result<Tag>)
    ensures r.Ok? <==> ValidTag(s)
    ensures r.Ok? ==> r.value == s
  {
    NewTag(s)
  }

  /** `Tag.GetTag`: the underlying string. */
  function GetTag(t: Tag): Bytes {
    t
  }

  /** `IsControlTag`: a length error for anything but three bytes; true for
      "00" followed by '1'..'z'; an error for "00" followed by any other byte;
      false, without error, for every other three-byte tag. */
  function IsControlTag(t: Tag): (r: Result<bool>)
    ensures r == Ok(true) <==> HasControlPrefix(t) && '1' <= t[2] <= 'z'
    ensures r == Ok(false) <==> |t| == 3 && !HasControlPrefix(t)
    ensures |t| != 3 ==> r == Err(BadTagLength)
    ensures HasControlPrefix(t) && !('1' <= t[2] <= 'z') ==> r == Err(InvalidControlTag)
  {
    if |t| != 3 then Err(BadTagLength)
    else if t[0] == '0' && t[1] == '0' then
      if '1' <= t[2] <= 'z' then Ok(true) else Err(InvalidControlTag)
    else Ok(false)
  }

  /** `IsDataTag`: true when the first two schema patterns (widened to
      '0'..'z') match; otherwise false without error for a control tag and an
      error for everything else. */
  function IsDataTag(t: Tag): (r: Result<bool>)
    ensures r == Ok(true) <==>
              |t| == 3 && InTagRange(t[2]) &&
              ((InTagRange(t[0]) && '1' <= t[1] <= 'z') || ('1' <= t[0] <= 'z' && InTagRange(t[1])))
    ensures r == Ok(false) <==> IsControlTag(t) == Ok(true)
    ensures |t| != 3 ==> r == Err(BadTagLength)
    ensures |t| == 3 && r != Ok(true) && r != Ok(false) ==> r == Err(InvalidDataTag)
  {
    if |t| != 3 then Err(BadTagLength)
    else if InTagRange(t[0]) && '1' <= t[1] <= 'z' && InTagRange(t[2]) then Ok(true)
    else if '1' <= t[0] <= 'z' && InTagRange(t[1]) && InTagRange(t[2]) then Ok(true)
    else
      match IsControlTag(t)
      case Ok(isControl) => if isControl then Ok(false) else Err(InvalidDataTag)
      case _ => Err(InvalidDataTag)
  }

  /** Among the tags `NewTag` accepts, a tag is a data tag exactly when it does
      not begin with "00", and a control tag exactly when it begins with "00"
      and is not "000"; "000" is rejected by both classifiers. */
  lemma TagPartition(t: Tag)
    requires ValidTag(t)
    ensures IsDataTag(t) == Ok(true) <==> !HasControlPrefix(t)
    ensures IsControlTag(t) == Ok(true) <==> HasControlPrefix(t) && t != "000"
    ensures t == "000" <==> IsControlTag(t).Err? && IsDataTag(t).Err?
    ensures IsDataTag(t).Ok? && IsControlTag(t).Ok? ==> IsDataTag(t).value != IsControlTag(t).value
  {
    if t == "000" {
      assert HasControlPrefix(t);
    }
  }

  /** No tag at all is both a control tag and a data tag, and every valid
      control tag is reported as "not a data tag" without error. */
  lemma ControlAndDataExclusive(t: Tag)
    ensures !(IsControlTag(t) == Ok(true) && IsDataTag(t) == Ok(true))
    ensures IsControlTag(t) == Ok(true) ==> IsDataTag(t) == Ok(false)
  {
  }

  /** The repository's tag test: a four-byte string is refused (Go hands back
      the empty tag alongside the error). */
  lemma NewTagByStrRejectsFourBytes()
    ensures NewTagByStr("1234") == Err(BadTagLength)
  {
  }
}
