/**
  The byte-string operations of Go's standard library that the codec calls:
  `bytes.Split` / `strings.Split` on a one-byte separator, `strings.Contains`,
  ASCII `strings.ToLower`, and the conversion `string(b)` of a single byte.
 */
module ByteStrings {
  import opened MarcTypes

  /** `string(b)` for a byte `b` converts the RUNE `b`, so it yields the
      two-byte UTF-8 encoding of U+0080..U+00FF for every byte from 0x80 up. */
  function RuneString(b: Byte): (r: Bytes)
    ensures b as int < 0x80 <==> r == [b]
    ensures b as int >= 0x80 ==> |r| == 2 && r[0] as int / 64 == 3 && r[1] as int / 64 == 2
    ensures b as int >= 0x80 ==> (r[0] as int % 32) * 64 + r[1] as int % 64 == b as int
  {
    if b as int < 0x80 then [b]
    else [(0xC0 + b as int / 64) as char, (0x80 + b as int % 64) as char]
  }

  /** Different bytes convert to different strings: the conversion can be
      decoded. */
  lemma RuneStringInjective(a: Byte, b: Byte)
    requires RuneString(a) == RuneString(b)
    ensures a == b
  {
  }

  /** The segments of `s` between occurrences of `d`: one more than the number
      of occurrences, possibly empty (Go's `bytes.Split(s, []byte{d})`). */
  function Split(s: Bytes, d: Byte): (r: seq<Bytes>)
    ensures |r| >= 1
  {
    if |s| == 0 then [[]]
    else
      var rest := Split(s[1..], d);
      if s[0] == d then [[]] + rest
      else [[s[0]] + rest[0]] + rest[1..]
  }

  /** The segments, with `d` between each pair of neighbours. */
  function Join(segs: seq<Bytes>, d: Byte): Bytes
    requires |segs| >= 1
  {
    if |segs| == 1 then segs[0] else segs[0] + [d] + Join(segs[1..], d)
  }

  predicate Free(s: Bytes, d: Byte) {
    forall i | 0 <= i < |s| :: s[i] != d
  }

  predicate AllFree(segs: seq<Bytes>, d: Byte) {
    forall k | 0 <= k < |segs| :: Free(segs[k], d)
  }

  /** Splitting loses nothing: no segment holds the separator, and joining the
      segments with it gives the input back. */
  lemma {:induction false} SplitJoin(s: Bytes, d: Byte)
    ensures AllFree(Split(s, d), d)
    ensures Join(Split(s, d), d) == s
  {
    if |s| > 0 {
      var rest := Split(s[1..], d);
      SplitJoin(s[1..], d);
      var r := Split(s, d);
      if s[0] == d {
        assert r[1..] == rest;
      } else {
        assert Free([s[0]] + rest[0], d);
        if |rest| == 1 {
          assert r == [[s[0]] + rest[0]];
        } else {
          assert r[1..] == rest[1..];
          assert Join(rest, d) == rest[0] + [d] + Join(rest[1..], d);
        }
      }
    }
  }

  /** An empty first segment leaves just the separator in front. */
  lemma JoinBehindEmpty(segs: seq<Bytes>, d: Byte)
    requires |segs| >= 1
    ensures Join([[]] + segs, d) == [d] + Join(segs, d)
  {
    var all := [[]] + segs;
    assert all[0] == [] && all[1..] == segs;
  }

  /** Splitting is the inverse of joining separator-free segments. */
  lemma {:induction false} JoinSplit(segs: seq<Bytes>, d: Byte)
    requires |segs| >= 1 && AllFree(segs, d)
    ensures Split(Join(segs, d), d) == segs
  {
    if |segs| == 1 {
      SplitFree(segs[0], d);
    } else {
      JoinSplit(segs[1..], d);
      SplitPrefix(segs[0], Join(segs[1..], d), d);
      assert [segs[0]] + segs[1..] == segs;
    }
  }

  /** A separator-free string is a single segment. */
  lemma {:induction false} SplitFree(s: Bytes, d: Byte)
    requires Free(s, d)
    ensures Split(s, d) == [s]
  {
    if |s| > 0 {
      SplitFree(s[1..], d);
      assert [s[0]] + s[1..] == s;
    }
  }

  /** Splitting `a + [d] + b` with a separator-free `a` puts `a` first. */
  lemma {:induction false} SplitPrefix(a: Bytes, b: Bytes, d: Byte)
    requires Free(a, d)
    ensures Split(a + [d] + b, d) == [a] + Split(b, d)
  {
    if |a| == 0 {
      assert a + [d] + b == [d] + b;
      assert ([d] + b)[1..] == b;
    } else {
      SplitPrefix(a[1..], b, d);
      assert (a + [d] + b)[1..] == a[1..] + [d] + b;
      assert [a[0]] + a[1..] == a;
    }
  }

  /** Splitting `a + [d] + b` splits `a` and `b` apart: the separator between
      them closes the last segment of `a`. */
  lemma {:induction false} SplitAppend(a: Bytes, b: Bytes, d: Byte)
    ensures Split(a + [d] + b, d) == Split(a, d) + Split(b, d)
  {
    if |a| == 0 {
      assert a + [d] + b == [d] + b;
      SplitCons(d, b, d);
    } else {
      var t := a[1..] + [d] + b;
      assert a + [d] + b == [a[0]] + t;
      assert a == [a[0]] + a[1..];
      SplitAppend(a[1..], b, d);
      SplitCons(a[0], t, d);
      SplitCons(a[0], a[1..], d);
      var ra := Split(a[1..], d);
      var rb := Split(b, d);
      if a[0] == d {
        ConcatAssoc([[]], ra, rb);
      } else {
        SplitHead(ra, rb);
        ConcatAssoc([[a[0]] + ra[0]], ra[1..], rb);
      }
    }
  }

  /** One byte in front: a separator opens a new first segment, any other
      byte joins the first segment. */
  lemma SplitCons(x: Byte, t: Bytes, d: Byte)
    ensures Split([x] + t, d)
            == if x == d then [[]] + Split(t, d) else [[x] + Split(t, d)[0]] + Split(t, d)[1..]
  {
    assert ([x] + t)[0] == x && ([x] + t)[1..] == t;
  }

  lemma SplitHead(ra: seq<Bytes>, rb: seq<Bytes>)
    requires |ra| >= 1
    ensures (ra + rb)[0] == ra[0] && (ra + rb)[1..] == ra[1..] + rb
  {
  }

  lemma ConcatAssoc<T>(a: seq<T>, b: seq<T>, c: seq<T>)
    ensures (a + b) + c == a + (b + c)
  {
  }

  /** `sub` occurs in `s` starting at position `i`. */
  predicate OccursAt(s: Bytes, sub: Bytes, i: int) {
    0 <= i <= |s| - |sub| && s[i..i + |sub|] == sub
  }

  /** `strings.Contains(s, sub)`: a left-to-right search for `sub` in `s`. */
  function Contains(s: Bytes, sub: Bytes): (b: bool)
    ensures b <==> exists i :: OccursAt(s, sub, i)
  {
    if |sub| > |s| then false
    else if s[..|sub|] == sub then assert OccursAt(s, sub, 0); true
    else
      var b := Contains(s[1..], sub);
      assert b ==> exists i :: OccursAt(s, sub, i) by {
        if b {
          var i :| OccursAt(s[1..], sub, i);
          assert s[i + 1..i + 1 + |sub|] == s[1..][i..i + |sub|];
          assert OccursAt(s, sub, i + 1);
        }
      }
      assert (exists i :: OccursAt(s, sub, i)) ==> b by {
        if exists i :: OccursAt(s, sub, i) {
          var i :| OccursAt(s, sub, i);
          assert i != 0;
          assert s[1..][i - 1..i - 1 + |sub|] == s[i..i + |sub|];
          assert OccursAt(s[1..], sub, i - 1);
        }
      }
      b
  }

  function LowerByte(c: Byte): (l: Byte)
    ensures 'A' <= c <= 'Z' ==> l as int == c as int + 32
    ensures !('A' <= c <= 'Z') ==> l == c
  {
    if 'A' <= c <= 'Z' then (c as int + 32) as char else c
  }

  /** `strings.ToLower` restricted to ASCII: upper-case letters become lower
      case and every other byte is kept. */
  function ToLower(s: Bytes): (r: Bytes)
    ensures |r| == |s|
    ensures forall i | 0 <= i < |s| :: r[i] == LowerByte(s[i])
  {
    seq(|s|, i requires 0 <= i < |s| => LowerByte(s[i]))
  }

  /** Lower-casing twice is lower-casing once. */
  lemma ToLowerIdempotent(s: Bytes)
    ensures ToLower(ToLower(s)) == ToLower(s)
  {
  }

  /** The concatenation of all the pieces, in order. */
  function Concat(pieces: seq<Bytes>): Bytes {
    if |pieces| == 0 then [] else pieces[0] + Concat(pieces[1..])
  }
}
