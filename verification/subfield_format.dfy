/**
  The subfield portion of a data field in the binary format: each subfield is
  the subfield indicator 0x1F, a one-byte code and the data (the layout
  described in Marc21DataField.go).  Both readers of that layout split the
  bytes on 0x1F and turn segments into subfields, but they keep different
  segments: `ParseDataFields` keeps every non-empty one, `MakeDataField`
  only those longer than one byte.
 */
module SubFieldFormat {
  import opened MarcTypes
  import opened ByteStrings

  /** A subfield the binary layout can carry: a one-byte ASCII code other than
      the delimiter, and data without the delimiter. */
  predicate Encodable(sf: SubField) {
    && |sf.code| == 1 && sf.code[0] as int < 0x80 && sf.code[0] != SUBFIELD_INDICATOR
    && Free(sf.data, SUBFIELD_INDICATOR)
  }

  predicate AllEncodable(sfs: seq<SubField>) {
    forall k | 0 <= k < |sfs| :: Encodable(sfs[k])
  }

  /** The subfield written as the format lays it out. */
  function SubFieldsBytes(sfs: seq<SubField>): (b: Bytes)
    ensures |sfs| > 0 ==> |b| > 0 && b[0] == SUBFIELD_INDICATOR
  {
    if |sfs| == 0 then [] else [SUBFIELD_INDICATOR] + sfs[0].code + sfs[0].data + SubFieldsBytes(sfs[1..])
  }

  /** The segment between two delimiters that one subfield becomes. */
  function Segments(sfs: seq<SubField>): (segs: seq<Bytes>)
    ensures |segs| == |sfs|
    ensures forall k | 0 <= k < |sfs| :: segs[k] == sfs[k].code + sfs[k].data
  {
    if |sfs| == 0 then [] else [sfs[0].code + sfs[0].data] + Segments(sfs[1..])
  }

  /** The segment rule of `ParseDataFields`: every non-empty segment becomes a
      subfield whose code is the first byte (as a rune) and whose data is
      the rest. */
  function KeepNonEmpty(segs: seq<Bytes>): (sfs: seq<SubField>)
    ensures |sfs| <= |segs|
    ensures forall k | 0 <= k < |sfs| :: |sfs[k].code| >= 1
  {
    if |segs| == 0 then []
    else
      var rest := KeepNonEmpty(segs[1..]);
      if |segs[0]| > 0 then [SubField(RuneString(segs[0][0]), segs[0][1..])] + rest else rest
  }

  /** The segment rule of `MakeDataField`: only segments longer than one byte
      become subfields, so a code without data is dropped. */
  function KeepLongerThanOne(segs: seq<Bytes>): (sfs: seq<SubField>)
    ensures |sfs| <= |segs|
    ensures forall k | 0 <= k < |sfs| :: |sfs[k].code| >= 1 && |sfs[k].data| >= 1
  {
    if |segs| == 0 then []
    else
      var rest := KeepLongerThanOne(segs[1..]);
      if |segs[0]| > 1 then [SubField(RuneString(segs[0][0]), segs[0][1..])] + rest else rest
  }

  /** Segments `MakeDataField` keeps whole: each has an ASCII code byte and
      at least one byte of data. */
  predicate CodedSegments(segs: seq<Bytes>) {
    forall k | 0 <= k < |segs| :: |segs[k]| > 1 && segs[k][0] as int < 0x80
  }

  /** Subfields free of the delimiter: neither the data nor the first byte
      of the code is 0x1F. */
  predicate DelimiterFree(sfs: seq<SubField>) {
    forall k | 0 <= k < |sfs| :: |sfs[k].code| >= 1 && sfs[k].code[0] != SUBFIELD_INDICATOR && Free(sfs[k].data, SUBFIELD_INDICATOR)
  }

  /** Subfields read from delimiter-free segments hold no delimiter. */
  lemma {:induction false} KeepLongerThanOneClean(segs: seq<Bytes>)
    requires AllFree(segs, SUBFIELD_INDICATOR)
    ensures DelimiterFree(KeepLongerThanOne(segs))
  {
    if |segs| > 0 {
      assert AllFree(segs[1..], SUBFIELD_INDICATOR) by {
        forall k | 0 <= k < |segs[1..]| ensures Free(segs[1..][k], SUBFIELD_INDICATOR) {
          assert segs[1..][k] == segs[k + 1];
        }
      }
      KeepLongerThanOneClean(segs[1..]);
      var rest := KeepLongerThanOne(segs[1..]);
      if |segs[0]| > 1 {
        assert Free(segs[0], SUBFIELD_INDICATOR);
        var sf := SubField(RuneString(segs[0][0]), segs[0][1..]);
        assert sf.code[0] != SUBFIELD_INDICATOR;
        assert Free(sf.data, SUBFIELD_INDICATOR);
        var sfs := [sf] + rest;
        assert KeepLongerThanOne(segs) == sfs;
        forall k | 0 <= k < |sfs|
          ensures |sfs[k].code| >= 1 && sfs[k].code[0] != SUBFIELD_INDICATOR && Free(sfs[k].data, SUBFIELD_INDICATOR)
        {
          if k > 0 {
            assert sfs[k] == rest[k - 1];
          }
        }
      } else {
        assert KeepLongerThanOne(segs) == rest;
      }
    }
  }

  /** Coded segments turn into subfields one for one, each writing back as
      the segment it came from. */
  lemma {:induction false} KeepLongerThanOneLayout(segs: seq<Bytes>)
    requires CodedSegments(segs)
    ensures Segments(KeepLongerThanOne(segs)) == segs
  {
    if |segs| > 0 {
      assert CodedSegments(segs[1..]) by {
        forall k | 0 <= k < |segs[1..]| ensures |segs[1..][k]| > 1 && segs[1..][k][0] as int < 0x80 {
          assert segs[1..][k] == segs[k + 1];
        }
      }
      KeepLongerThanOneLayout(segs[1..]);
      var rest := KeepLongerThanOne(segs[1..]);
      assert |segs[0]| > 1 && segs[0][0] as int < 0x80;
      var sf := SubField(RuneString(segs[0][0]), segs[0][1..]);
      assert sf.code + sf.data == segs[0];
      assert KeepLongerThanOne(segs) == [sf] + rest;
      SegmentsCons(sf, rest);
      assert [segs[0]] + segs[1..] == segs;
    }
  }

  lemma SegmentsCons(sf: SubField, rest: seq<SubField>)
    ensures Segments([sf] + rest) == [sf.code + sf.data] + Segments(rest)
  {
    assert ([sf] + rest)[0] == sf && ([sf] + rest)[1..] == rest;
  }

  /** The layout is the segments joined by the delimiter, behind one leading
      delimiter (an empty first segment). */
  lemma {:induction false} SubFieldsBytesIsJoin(sfs: seq<SubField>)
    ensures SubFieldsBytes(sfs) == Join([[]] + Segments(sfs), SUBFIELD_INDICATOR)
  {
    if |sfs| > 0 {
      SubFieldsBytesIsJoin(sfs[1..]);
      var segs := [[]] + Segments(sfs);
      assert segs[1..] == Segments(sfs);
      if |sfs| == 1 {
        assert Segments(sfs) == [sfs[0].code + sfs[0].data];
        assert SubFieldsBytes(sfs[1..]) == [];
      } else {
        var tail := [[]] + Segments(sfs[1..]);
        assert Join(Segments(sfs), SUBFIELD_INDICATOR)
               == (sfs[0].code + sfs[0].data) + [SUBFIELD_INDICATOR] + Join(Segments(sfs[1..]), SUBFIELD_INDICATOR);
        assert tail[1..] == Segments(sfs[1..]);
      }
    }
  }

  /** No segment of encodable subfields holds the delimiter. */
  lemma {:induction false} SegmentsFree(sfs: seq<SubField>)
    requires AllEncodable(sfs)
    ensures AllFree(Segments(sfs), SUBFIELD_INDICATOR)
  {
    forall k | 0 <= k < |sfs|
      ensures Free(Segments(sfs)[k], SUBFIELD_INDICATOR)
    {
      assert Encodable(sfs[k]);
    }
  }

  /** Reading the segments back with the `ParseDataFields` rule gives the
      subfields back. */
  lemma {:induction false} KeepNonEmptySegments(sfs: seq<SubField>)
    requires AllEncodable(sfs)
    ensures KeepNonEmpty(Segments(sfs)) == sfs
  {
    if |sfs| > 0 {
      assert Encodable(sfs[0]);
      assert Segments(sfs)[1..] == Segments(sfs[1..]);
      KeepNonEmptySegments(sfs[1..]);
      var seg := sfs[0].code + sfs[0].data;
      assert seg[1..] == sfs[0].data;
      assert RuneString(seg[0]) == sfs[0].code;
      assert [sfs[0]] + sfs[1..] == sfs;
    }
  }

  /** Reading the segments back with the `MakeDataField` rule gives the
      subfields back when none of them has empty data. */
  lemma {:induction false} KeepLongerThanOneSegments(sfs: seq<SubField>)
    requires AllEncodable(sfs)
    requires forall k | 0 <= k < |sfs| :: sfs[k].data != []
    ensures KeepLongerThanOne(Segments(sfs)) == sfs
  {
    if |sfs| > 0 {
      assert Encodable(sfs[0]) && sfs[0].data != [];
      assert Segments(sfs)[1..] == Segments(sfs[1..]);
      KeepLongerThanOneSegments(sfs[1..]);
      var seg := sfs[0].code + sfs[0].data;
      assert seg[1..] == sfs[0].data;
      assert RuneString(seg[0]) == sfs[0].code;
      assert [sfs[0]] + sfs[1..] == sfs;
    }
  }

  /** The subfield split of `ParseDataFields` inverts the layout: splitting the
      bytes of encodable subfields on 0x1F and keeping the non-empty segments
      recovers them, in order, duplicates included. */
  lemma SubFieldsRoundTrip(sfs: seq<SubField>)
    requires AllEncodable(sfs)
    ensures KeepNonEmpty(Split(SubFieldsBytes(sfs), SUBFIELD_INDICATOR)) == sfs
  {
    SubFieldsBytesIsJoin(sfs);
    SegmentsFree(sfs);
    var segs := [[]] + Segments(sfs);
    assert AllFree(segs, SUBFIELD_INDICATOR) by {
      forall k | 0 <= k < |segs| ensures Free(segs[k], SUBFIELD_INDICATOR) {
        if k > 0 {
          assert segs[k] == Segments(sfs)[k - 1];
        }
      }
    }
    JoinSplit(segs, SUBFIELD_INDICATOR);
    assert segs[1..] == Segments(sfs);
    KeepNonEmptySegments(sfs);
  }

  /** Without its leading delimiter, the layout of a non-empty list is the
      segments joined by the delimiter; splitting it gives them back. */
  lemma SplitAfterFirstDelimiter(sfs: seq<SubField>)
    requires |sfs| > 0 && AllEncodable(sfs)
    ensures Split(SubFieldsBytes(sfs)[1..], SUBFIELD_INDICATOR) == Segments(sfs)
  {
    var segs := Segments(sfs);
    SubFieldsBytesIsJoin(sfs);
    JoinBehindEmpty(segs, SUBFIELD_INDICATOR);
    var j := Join(segs, SUBFIELD_INDICATOR);
    assert ([SUBFIELD_INDICATOR] + j)[1..] == j;
    SegmentsFree(sfs);
    JoinSplit(segs, SUBFIELD_INDICATOR);
  }
}
