/**
 * UTF-8: the single-scalar decoder `frog_decode_utf8` and encoder
 * `frog_encode_utf8`, with the bit layout of section 3 of RFC 3629 and
 * the library's deviations from it: no overlong rejection, no surrogate
 * rejection, and a four-byte form that reaches 0x1FFFFF.
 */
module Utf8 {
  import opened Units
  import Bits

  /** Largest scalar plus one that the encoder accepts (the four-byte form's reach). */
  const Limit: bv32 := 0x200000

  /** A byte of the form 10xxxxxx. */
  predicate IsContinuation(b: bv8) {
    b & 0xC0 == 0x80
  }

  /**
   * The index at which a run of continuation bytes starting at `i` ends:
   * the first index in `[i, end)` holding a non-continuation byte, or `end`.
   */
  function SkipContinuation(s: seq<bv8>, i: nat, end: nat): (j: nat)
    requires i <= end <= |s|
    ensures i <= j <= end
    ensures forall k :: i <= k < j ==> IsContinuation(s[k])
    ensures j < end ==> !IsContinuation(s[j])
    decreases end - i
  {
    if i < end && IsContinuation(s[i]) then SkipContinuation(s, i + 1, end) else i
  }

  /**
   * Decodes one scalar from the non-empty view `[begin, end)` of `s` and
   * returns it with the index after it. Malformed input yields U+FFFD:
   * a stray continuation byte skips its whole run of continuation bytes, a
   * sequence cut off by `end` consumes the rest of the view, and a lead
   * byte of 0xF8 or more skips the length its leading one bits announce.
   */
  function Decode(s: seq<bv8>, begin: nat, end: nat): (d: Decoded)
    requires begin < end <= |s|
    ensures begin < d.next <= end
    ensures d.scalar < Limit
    ensures s[begin] < 0x80 ==> d == Decoded(s[begin] as bv32, begin + 1)
    ensures IsContinuation(s[begin]) ==>
              && d.scalar == Replacement
              && (forall k :: begin <= k < d.next ==> IsContinuation(s[k]))
              && (d.next < end ==> !IsContinuation(s[d.next]))
    ensures s[begin] >= 0xC0 && begin + Bits.LeadLength(s[begin]) > end ==>
              d == Decoded(Replacement, end)
    ensures s[begin] >= 0xF8 && begin + Bits.LeadLength(s[begin]) <= end ==>
              d == Decoded(Replacement, begin + Bits.LeadLength(s[begin]))
  {
    var first := s[begin] as bv32;
    if first < 0x80 then
      Decoded(first, begin + 1)
    else if first < 0xC0 then
      Decoded(Replacement, SkipContinuation(s, begin, end))
    else
      var length := Bits.LeadLength(s[begin]);
      if begin + length > end then
        Decoded(Replacement, end)
      else if first < 0xE0 then
        Decoded(((first & 0x1F) << 6)
                | (s[begin + 1] as bv32 & 0x3F),
                begin + length)
      else if first < 0xF0 then
        Decoded(((first & 0x0F) << 12)
                | ((s[begin + 1] as bv32 & 0x3F) << 6)
                | (s[begin + 2] as bv32 & 0x3F),
                begin + length)
      else if first < 0xF8 then
        Decoded(((first & 0x07) << 18)
                | ((s[begin + 1] as bv32 & 0x3F) << 12)
                | ((s[begin + 2] as bv32 & 0x3F) << 6)
                | (s[begin + 3] as bv32 & 0x3F),
                begin + length)
      else
        Decoded(Replacement, begin + length)
  }

  /**
   * The number of bytes a scalar takes (the table of section 3 of RFC 3629,
   * extended to 0x1FFFFF), or 0 when the encoder rejects it.
   */
  function Width(ch: bv32): (n: nat)
    ensures n <= 4
    ensures n != 0 <==> ch < Limit
  {
    if ch < 0x80 then 1
    else if ch < 0x800 then 2
    else if ch < 0x10000 then 3
    else if ch < Limit then 4
    else 0
  }

  /**
   * The bytes of a scalar below 0x200000 in the bit layout of section 3 of
   * RFC 3629: a lead byte announcing the length, then continuation bytes
   * carrying six bits each.
   */
  function Form(ch: bv32): (f: seq<bv8>)
    requires ch < Limit
    ensures |f| == Width(ch)
  {
    if ch < 0x80 then
      [ch as bv8]
    else if ch < 0x800 then
      [(0xC0 | (ch >> 6)) as bv8,
       (0x80 | (ch & 0x3F)) as bv8]
    else if ch < 0x10000 then
      [(0xE0 | (ch >> 12)) as bv8,
       (0x80 | ((ch >> 6) & 0x3F)) as bv8,
       (0x80 | (ch & 0x3F)) as bv8]
    else
      [(0xF0 | (ch >> 18)) as bv8,
       (0x80 | ((ch >> 12) & 0x3F)) as bv8,
       (0x80 | ((ch >> 6) & 0x3F)) as bv8,
       (0x80 | (ch & 0x3F)) as bv8]
  }

  /**
   * Encodes one scalar. Measuring reports the byte count; writing stores the
   * bytes at the view's begin and reports their count, or reports 0 and
   * stores nothing when they do not fit. Scalars of 0x200000 and above are
   * rejected with 0 in both modes.
   */
  function Encode(t: Target<bv8>, ch: bv32): (r: Encoded<bv8>)
    requires t.Valid()
    ensures r.target.Valid()
    ensures WritesWithin(t, r.target, r.count)
    ensures r.count == 0 ==> r.target == t
    ensures t.Measure? ==> r.count == Width(ch)
    ensures t.Write? ==> r.count == if Width(ch) <= t.end - t.begin then Width(ch) else 0
    ensures t.Write? && r.count > 0 ==> r.target.units[t.begin..t.begin + r.count] == Form(ch)
  {
    if ch < Limit then Store(t, Form(ch)) else Encoded(0, t)
  }

  /** Bit facts behind the two-byte form, stated on the byte expressions alone. */
  lemma TwoByteBits(ch: bv32)
    requires 0x80 <= ch < 0x800
    ensures var b0, b1 := (0xC0 | (ch >> 6)) as bv8, (0x80 | (ch & 0x3F)) as bv8;
            && 0xC0 <= b0 < 0xE0
            && IsContinuation(b1)
            && (((b0 as bv32 & 0x1F) << 6) | (b1 as bv32 & 0x3F)) == ch
  {
  }

  /** Bit facts behind the three-byte form, stated on the byte expressions alone. */
  lemma ThreeByteBits(ch: bv32)
    requires 0x800 <= ch < 0x10000
    ensures var b0, b1, b2 := (0xE0 | (ch >> 12)) as bv8, (0x80 | ((ch >> 6) & 0x3F)) as bv8, (0x80 | (ch & 0x3F)) as bv8;
            && 0xE0 <= b0 < 0xF0
            && IsContinuation(b1) && IsContinuation(b2)
            && (((b0 as bv32 & 0x0F) << 12) | ((b1 as bv32 & 0x3F) << 6) | (b2 as bv32 & 0x3F)) == ch
  {
  }

  /** Bit facts behind the four-byte form, stated on the byte expressions alone. */
  lemma FourByteBits(ch: bv32)
    requires 0x10000 <= ch < Limit
    ensures var b0, b1 := (0xF0 | (ch >> 18)) as bv8, (0x80 | ((ch >> 12) & 0x3F)) as bv8;
            var b2, b3 := (0x80 | ((ch >> 6) & 0x3F)) as bv8, (0x80 | (ch & 0x3F)) as bv8;
            && 0xF0 <= b0 < 0xF8
            && IsContinuation(b1) && IsContinuation(b2) && IsContinuation(b3)
            && (((b0 as bv32 & 0x07) << 18) | ((b1 as bv32 & 0x3F) << 12)
                | ((b2 as bv32 & 0x3F) << 6) | (b3 as bv32 & 0x3F)) == ch
  {
  }

  /**
   * Every form has the lead and continuation bit layout of section 3 of
   * RFC 3629: a single byte below 0x80, or a lead byte whose leading one
   * bits count the bytes, followed by continuation bytes. (The RFC also
   * excludes surrogates and code points above 0x10FFFF, which these forms
   * do not.)
   */
  lemma FormIsWellFormed(ch: bv32)
    requires ch < Limit
    ensures var f := Form(ch);
            && (|f| == 1 ==> f[0] < 0x80)
            && (|f| > 1 ==> Bits.LeadLength(f[0]) == |f|)
            && forall k :: 1 <= k < |f| ==> IsContinuation(f[k])
  {
    if ch < 0x80 {
    } else if ch < 0x800 {
      var b0, b1 := (0xC0 | (ch >> 6)) as bv8, (0x80 | (ch & 0x3F)) as bv8;
      assert Form(ch) == [b0, b1];
      TwoByteBits(ch);
    } else if ch < 0x10000 {
      var b0, b1, b2 := (0xE0 | (ch >> 12)) as bv8, (0x80 | ((ch >> 6) & 0x3F)) as bv8, (0x80 | (ch & 0x3F)) as bv8;
      assert Form(ch) == [b0, b1, b2];
      ThreeByteBits(ch);
    } else {
      var b0, b1 := (0xF0 | (ch >> 18)) as bv8, (0x80 | ((ch >> 12) & 0x3F)) as bv8;
      var b2, b3 := (0x80 | ((ch >> 6) & 0x3F)) as bv8, (0x80 | (ch & 0x3F)) as bv8;
      assert Form(ch) == [b0, b1, b2, b3];
      FourByteBits(ch);
    }
  }

  /**
   * Every form is the shortest one for its code point (section 4 of RFC 3629
   * forbids the overlong ones): a two-byte lead is at least 0xC2, and a
   * three- or four-byte form whose lead is the smallest of its length has a
   * second byte past the range an overlong form would use.
   */
  lemma FormIsShortest(ch: bv32)
    requires ch < Limit
    ensures var f := Form(ch);
            && (|f| == 2 ==> f[0] >= 0xC2)
            && (|f| == 3 ==> f[0] > 0xE0 || f[1] >= 0xA0)
            && (|f| == 4 ==> f[0] > 0xF0 || f[1] >= 0x90)
  {
  }

  /** Decoding a sequence that starts with a two-byte lead and fits the view. */
  lemma DecodeTwo(s: seq<bv8>, begin: nat, end: nat)
    requires begin + 2 <= end <= |s| && 0xC0 <= s[begin] < 0xE0
    ensures Decode(s, begin, end)
            == Decoded(((s[begin] as bv32 & 0x1F) << 6) | (s[begin + 1] as bv32 & 0x3F), begin + 2)
  {
  }

  /** Decoding a sequence that starts with a three-byte lead and fits the view. */
  lemma DecodeThree(s: seq<bv8>, begin: nat, end: nat)
    requires begin + 3 <= end <= |s| && 0xE0 <= s[begin] < 0xF0
    ensures Decode(s, begin, end)
            == Decoded(((s[begin] as bv32 & 0x0F) << 12) | ((s[begin + 1] as bv32 & 0x3F) << 6)
                       | (s[begin + 2] as bv32 & 0x3F), begin + 3)
  {
  }

  /** Decoding a sequence that starts with a four-byte lead and fits the view. */
  lemma DecodeFour(s: seq<bv8>, begin: nat, end: nat)
    requires begin + 4 <= end <= |s| && 0xF0 <= s[begin] < 0xF8
    ensures Decode(s, begin, end)
            == Decoded(((s[begin] as bv32 & 0x07) << 18) | ((s[begin + 1] as bv32 & 0x3F) << 12)
                       | ((s[begin + 2] as bv32 & 0x3F) << 6) | (s[begin + 3] as bv32 & 0x3F), begin + 4)
  {
  }

  /**
   * Decoding the form of a scalar below 0x200000, wherever it sits in a view
   * and whatever follows it, gives the scalar back and consumes exactly the
   * form.
   */
  lemma DecodeForm(s: seq<bv8>, begin: nat, end: nat, ch: bv32)
    requires ch < Limit
    requires begin + Width(ch) <= end <= |s|
    requires s[begin..begin + Width(ch)] == Form(ch)
    ensures Decode(s, begin, end) == Decoded(ch, begin + Width(ch))
  {
    var f := Form(ch);
    assert s[begin] == f[0];
    if ch < 0x80 {
      DecodeFormOne(s, begin, end, ch);
    } else if ch < 0x800 {
      var b0, b1 := (0xC0 | (ch >> 6)) as bv8, (0x80 | (ch & 0x3F)) as bv8;
      assert s[begin + 1] == f[1];
      assert f == [b0, b1];
      assert s[begin] == b0 && s[begin + 1] == b1;
      DecodeFormTwo(s, begin, end, ch);
    } else if ch < 0x10000 {
      var b0, b1, b2 := (0xE0 | (ch >> 12)) as bv8, (0x80 | ((ch >> 6) & 0x3F)) as bv8, (0x80 | (ch & 0x3F)) as bv8;
      assert s[begin + 1] == f[1] && s[begin + 2] == f[2];
      assert f == [b0, b1, b2];
      assert s[begin] == b0 && s[begin + 1] == b1 && s[begin + 2] == b2;
      DecodeFormThree(s, begin, end, ch);
    } else {
      var b0, b1 := (0xF0 | (ch >> 18)) as bv8, (0x80 | ((ch >> 12) & 0x3F)) as bv8;
      var b2, b3 := (0x80 | ((ch >> 6) & 0x3F)) as bv8, (0x80 | (ch & 0x3F)) as bv8;
      assert s[begin + 1] == f[1] && s[begin + 2] == f[2] && s[begin + 3] == f[3];
      assert f == [b0, b1, b2, b3];
      assert s[begin] == b0 && s[begin + 1] == b1 && s[begin + 2] == b2 && s[begin + 3] == b3;
      DecodeFormFour(s, begin, end, ch);
    }
  }

  /** One-byte case of DecodeForm. */
  lemma DecodeFormOne(s: seq<bv8>, begin: nat, end: nat, ch: bv32)
    requires ch < 0x80 && begin + 1 <= end <= |s|
    requires s[begin] == ch as bv8
    ensures Decode(s, begin, end) == Decoded(ch, begin + 1)
  {
  }

  /** Two-byte case of DecodeForm. */
  lemma DecodeFormTwo(s: seq<bv8>, begin: nat, end: nat, ch: bv32)
    requires 0x80 <= ch < 0x800 && begin + 2 <= end <= |s|
    requires s[begin] == (0xC0 | (ch >> 6)) as bv8
    requires s[begin + 1] == (0x80 | (ch & 0x3F)) as bv8
    ensures Decode(s, begin, end) == Decoded(ch, begin + 2)
  {
    TwoByteBits(ch);
    DecodeTwo(s, begin, end);
  }

  /** Three-byte case of DecodeForm. */
  lemma DecodeFormThree(s: seq<bv8>, begin: nat, end: nat, ch: bv32)
    requires 0x800 <= ch < 0x10000 && begin + 3 <= end <= |s|
    requires s[begin] == (0xE0 | (ch >> 12)) as bv8
    requires s[begin + 1] == (0x80 | ((ch >> 6) & 0x3F)) as bv8
    requires s[begin + 2] == (0x80 | (ch & 0x3F)) as bv8
    ensures Decode(s, begin, end) == Decoded(ch, begin + 3)
  {
    ThreeByteBits(ch);
    DecodeThree(s, begin, end);
  }

  /** Four-byte case of DecodeForm. */
  lemma DecodeFormFour(s: seq<bv8>, begin: nat, end: nat, ch: bv32)
    requires 0x10000 <= ch < Limit && begin + 4 <= end <= |s|
    requires s[begin] == (0xF0 | (ch >> 18)) as bv8
    requires s[begin + 1] == (0x80 | ((ch >> 12) & 0x3F)) as bv8
    requires s[begin + 2] == (0x80 | ((ch >> 6) & 0x3F)) as bv8
    requires s[begin + 3] == (0x80 | (ch & 0x3F)) as bv8
    ensures Decode(s, begin, end) == Decoded(ch, begin + 4)
  {
    FourByteBits(ch);
    DecodeFour(s, begin, end);
  }

  /**
   * Round trip: for every scalar below 0x200000, writing it into a view with
   * room for its width stores exactly that many bytes, and decoding them
   * from the view's begin, whatever lies after them, gives the scalar back
   * and advances past exactly those bytes.
   */
  lemma RoundTrip(t: Target<bv8>, ch: bv32, end: nat)
    requires t.Write? && t.Valid()
    requires ch < Limit && Width(ch) <= t.end - t.begin
    requires t.begin + Width(ch) <= end <= |t.units|
    ensures Encode(t, ch).count == Width(ch)
    ensures Decode(Encode(t, ch).target.units, t.begin, end) == Decoded(ch, t.begin + Width(ch))
  {
    DecodeForm(Encode(t, ch).target.units, t.begin, end, ch);
  }

  /** Measuring gives the count that writing with enough room stores; with one byte too few, writing stores nothing. */
  lemma MeasureMatchesWrite(units: seq<bv8>, begin: nat, end: nat, ch: bv32)
    requires begin <= end <= |units|
    ensures Encode(Measure, ch).count <= end - begin ==>
              Encode(Write(units, begin, end), ch).count == Encode(Measure, ch).count
    ensures Encode(Measure, ch).count > end - begin ==>
              Encode(Write(units, begin, end), ch) == Encoded(0, Write(units, begin, end))
  {
  }

  /** The run skipped from `i` depends only on the bytes of `[i, end)`. */
  lemma {:induction false} SkipContinuationLocal(s: seq<bv8>, lo: nat, i: nat, end: nat)
    requires lo <= i <= end <= |s|
    ensures SkipContinuation(s[lo..end], i - lo, end - lo) == SkipContinuation(s, i, end) - lo
    decreases end - i
  {
    if i < end && IsContinuation(s[i]) {
      assert s[lo..end][i - lo] == s[i];
      SkipContinuationLocal(s, lo, i + 1, end);
    }
  }

  /**
   * The decoder reads nothing outside its view: decoding `[begin, end)` of
   * `s` is decoding the view cut out on its own, shifted by `begin`.
   */
  lemma {:induction false} DecodeReadsOnlyView(s: seq<bv8>, begin: nat, end: nat)
    requires begin < end <= |s|
    ensures Decode(s[begin..end], 0, end - begin).scalar == Decode(s, begin, end).scalar
    ensures Decode(s[begin..end], 0, end - begin).next == Decode(s, begin, end).next - begin
  {
    var v := s[begin..end];
    var n := end - begin;
    assert v[0] == s[begin];
    if s[begin] < 0x80 {
    } else if s[begin] < 0xC0 {
      SkipContinuationLocal(s, begin, begin, end);
    } else if begin + Bits.LeadLength(s[begin]) > end {
    } else if s[begin] < 0xE0 {
      assert v[1] == s[begin + 1];
      DecodeTwo(s, begin, end);
      DecodeTwo(v, 0, n);
    } else if s[begin] < 0xF0 {
      assert v[1] == s[begin + 1] && v[2] == s[begin + 2];
      DecodeThree(s, begin, end);
      DecodeThree(v, 0, n);
    } else if s[begin] < 0xF8 {
      assert v[1] == s[begin + 1] && v[2] == s[begin + 2] && v[3] == s[begin + 3];
      DecodeFour(s, begin, end);
      DecodeFour(v, 0, n);
    }
  }

  /** Three stray continuation bytes decode to one U+FFFD that consumes all three. */
  lemma StrayRunIsOneReplacement()
    ensures Decode([0x80, 0x80, 0x80], 0, 3) == Decoded(Replacement, 3)
    ensures Decode([0x80, 0x80, 0x41], 0, 3) == Decoded(Replacement, 2)
  {
  }

  /**
   * Byte 0xFF announces 32 bytes: it yields U+FFFD and consumes the rest of
   * a shorter view, or 32 bytes of a long enough one.
   */
  lemma LeadByteFF(s: seq<bv8>, begin: nat, end: nat)
    requires begin < end <= |s| && s[begin] == 0xFF
    ensures Decode(s, begin, end).scalar == Replacement
    ensures Decode(s, begin, end).next == if end - begin < 32 then end else begin + 32
  {
  }

  /** An overlong form is not rejected: 0xC0 0x80 decodes to U+0000. */
  lemma OverlongAccepted()
    ensures Decode([0xC0, 0x80], 0, 2) == Decoded(0, 2)
  {
  }

  /** The bytes after a lead byte are not checked: 0xC3 followed by 'A' decodes to U+00C1 and swallows the 'A'. */
  lemma ContinuationNotChecked()
    ensures Decode([0xC3, 0x41], 0, 2) == Decoded(0xC1, 2)
  {
  }

  /**
   * Surrogate code points and code points above 0x10FFFF up to 0x1FFFFF are
   * encoded like any other: 0xD800 takes three bytes and 0x1FFFFF four.
   */
  lemma BeyondScalarsEncoded()
    ensures Encode(Measure, 0xD800).count == 3
    ensures Encode(Measure, 0x1FFFFF).count == 4
    ensures Encode(Measure, Limit).count == 0
  {
  }
}
