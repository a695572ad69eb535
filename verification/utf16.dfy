/**
 * UTF-16: the single-scalar decoder `frog_decode_utf16` and encoder
 * `frog_encode_utf16`, with the surrogate-pair arithmetic of sections 2.1
 * and 2.2 of RFC 2781. The decoder combines a high surrogate with whatever
 * unit follows it, without checking that it is a low surrogate.
 */
module Utf16 {
  import opened Units

  /** A unit, widened to 32 bits, in [0xD800, 0xDC00). */
  predicate IsHighSurrogate(u: bv32) {
    0xD800 <= u < 0xDC00
  }

  /** A unit, widened to 32 bits, in [0xDC00, 0xE000). */
  predicate IsLowSurrogate(u: bv32) {
    0xDC00 <= u < 0xE000
  }

  /**
   * Decodes one scalar from the non-empty view `[begin, end)` of `s`. A unit
   * outside the surrogate range is its own scalar; a stray low surrogate
   * yields U+FFFD; a high surrogate in the last position of the view yields
   * U+FFFD and consumes it; otherwise a high surrogate and the next unit
   * carry the upper and lower ten bits of the scalar's offset from 0x10000.
   * Whatever the input, the result is a Unicode scalar value.
   */
  function Decode(s: seq<bv16>, begin: nat, end: nat): (d: Decoded)
    requires begin < end <= |s|
    ensures begin < d.next <= end
    ensures IsScalarValue(d.scalar)
    ensures !IsHighSurrogate(s[begin] as bv32) && !IsLowSurrogate(s[begin] as bv32) ==>
              d == Decoded(s[begin] as bv32, begin + 1)
    ensures IsLowSurrogate(s[begin] as bv32) ==> d == Decoded(Replacement, begin + 1)
    ensures IsHighSurrogate(s[begin] as bv32) && begin + 1 == end ==> d == Decoded(Replacement, end)
    ensures IsHighSurrogate(s[begin] as bv32) && begin + 2 <= end ==>
              && d.next == begin + 2
              && d.scalar == Combine(s[begin], s[begin + 1])
  {
    var first := s[begin] as bv32;
    if first < 0xD800 then
      Decoded(first, begin + 1)
    else if first < 0xDC00 then
      if begin + 2 > end then
        Decoded(Replacement, end)
      else
        Decoded(Combine(s[begin], s[begin + 1]), begin + 2)
    else if first < 0xE000 then
      Decoded(Replacement, begin + 1)
    else
      Decoded(first, begin + 1)
  }

  /**
   * The scalar the decoder forms from a high surrogate and the unit after
   * it: 0x10000 plus the low ten bits of each unit, the high unit's bits on
   * top. Any two units give a supplementary scalar whose offset from 0x10000
   * carries those bits.
   */
  function Combine(hi: bv16, lo: bv16): (c: bv32)
    ensures 0x10000 <= c < 0x110000
    ensures (c - 0x10000) >> 10 == hi as bv32 & 0x3FF
    ensures (c - 0x10000) & 0x3FF == lo as bv32 & 0x3FF
  {
    0x10000
    + ((hi as bv32 & 0x3FF) << 10)
    + (lo as bv32 & 0x3FF)
  }

  /**
   * The number of units a scalar takes: one below 0x10000, two from 0x10000
   * up to 0x10FFFF, and 0 (rejected) for surrogate code points and for
   * anything above 0x10FFFF.
   */
  function Width(ch: bv32): (n: nat)
    ensures n <= 2
    ensures n != 0 <==> IsScalarValue(ch)
    ensures n == 2 <==> 0x10000 <= ch < 0x110000
  {
    if ch < 0xD800 then 1
    else if ch < 0xE000 then 0
    else if ch < 0x10000 then 1
    else if ch < 0x110000 then 2
    else 0
  }

  /** The high surrogate of a supplementary scalar: 0xD800 plus the upper ten bits of its offset from 0x10000. */
  function HighHalf(ch: bv32): (u: bv16)
    requires 0x10000 <= ch < 0x110000
    ensures IsHighSurrogate(u as bv32)
  {
    (0xD800 + ((ch - 0x10000) >> 10)) as bv16
  }

  /** The low surrogate of a supplementary scalar: 0xDC00 plus the lower ten bits of its offset from 0x10000. */
  function LowHalf(ch: bv32): (u: bv16)
    requires 0x10000 <= ch < 0x110000
    ensures IsLowSurrogate(u as bv32)
  {
    (0xDC00 + ((ch - 0x10000) & 0x3FF)) as bv16
  }

  /**
   * The units of a Unicode scalar value (section 2.1 of RFC 2781): the
   * scalar itself below 0x10000, otherwise a high surrogate and a low
   * surrogate that recombine to it.
   */
  function Form(ch: bv32): (f: seq<bv16>)
    requires IsScalarValue(ch)
    ensures |f| == Width(ch)
  {
    if ch < 0x10000 then
      [ch as bv16]
    else
      [HighHalf(ch), LowHalf(ch)]
  }

  /**
   * Encodes one scalar. Measuring reports the unit count; writing stores the
   * units at the view's begin and reports their count, or reports 0 and
   * stores nothing when they do not fit. Surrogate code points and scalars
   * above 0x10FFFF are rejected with 0 in both modes.
   */
  function Encode(t: Target<bv16>, ch: bv32): (r: Encoded<bv16>)
    requires t.Valid()
    ensures r.target.Valid()
    ensures WritesWithin(t, r.target, r.count)
    ensures r.count == 0 ==> r.target == t
    ensures t.Measure? ==> r.count == Width(ch)
    ensures t.Write? ==> r.count == if Width(ch) <= t.end - t.begin then Width(ch) else 0
    ensures t.Write? && r.count > 0 ==> r.target.units[t.begin..t.begin + r.count] == Form(ch)
  {
    if IsScalarValue(ch) then Store(t, Form(ch)) else Encoded(0, t)
  }

  /** The surrogates of a supplementary scalar recombine to it. */
  lemma PairForm(ch: bv32)
    requires 0x10000 <= ch < 0x110000
    ensures Combine(HighHalf(ch), LowHalf(ch)) == ch
  {
  }

  /** A scalar below 0x10000 survives narrowing to a 16-bit unit. */
  lemma NarrowWiden(ch: bv32)
    requires ch < 0x10000
    ensures (ch as bv16) as bv32 == ch
  {
  }

  /**
   * Decoding the form of a Unicode scalar value, wherever it sits in a view
   * and whatever follows it, gives the scalar back and consumes exactly the
   * form.
   */
  lemma DecodeForm(s: seq<bv16>, begin: nat, end: nat, ch: bv32)
    requires IsScalarValue(ch)
    requires begin + Width(ch) <= end <= |s|
    requires s[begin..begin + Width(ch)] == Form(ch)
    ensures Decode(s, begin, end) == Decoded(ch, begin + Width(ch))
  {
    var f := Form(ch);
    assert s[begin] == f[0];
    if ch < 0x10000 {
      assert f == [ch as bv16];
      DecodeUnit(s, begin, end, ch);
    } else {
      assert s[begin + 1] == f[1];
      assert f == [HighHalf(ch), LowHalf(ch)];
      DecodePair(s, begin, end, ch);
    }
  }

  /**
   * Every form is well formed in the sense of section 2.1 of RFC 2781: a
   * single unit outside the surrogate range holding the scalar, or a high
   * surrogate followed by a low surrogate.
   */
  lemma FormIsWellFormed(ch: bv32)
    requires IsScalarValue(ch)
    ensures var f := Form(ch);
            && (|f| == 1 ==> f[0] as bv32 == ch && !IsHighSurrogate(f[0] as bv32) && !IsLowSurrogate(f[0] as bv32))
            && (|f| == 2 ==> IsHighSurrogate(f[0] as bv32) && IsLowSurrogate(f[1] as bv32))
  {
    if ch < 0x10000 {
      assert Form(ch) == [ch as bv16];
      UnitShape(ch);
    } else {
      assert Form(ch) == [HighHalf(ch), LowHalf(ch)];
    }
  }

  /** A scalar of the one-unit form is a unit outside the surrogate range. */
  lemma UnitShape(ch: bv32)
    requires IsScalarValue(ch) && ch < 0x10000
    ensures var u := (ch as bv16) as bv32; u == ch && !IsHighSurrogate(u) && !IsLowSurrogate(u)
  {
    NarrowWiden(ch);
  }

  /** A unit holding a scalar outside the surrogate range decodes to that scalar and advances one unit. */
  lemma DecodeUnit(s: seq<bv16>, begin: nat, end: nat, ch: bv32)
    requires begin < end <= |s|
    requires ch < 0xD800 || 0xE000 <= ch < 0x10000
    requires s[begin] == ch as bv16
    ensures Decode(s, begin, end) == Decoded(ch, begin + 1)
  {
    assert s[begin] as bv32 == ch by { NarrowWiden(ch); }
  }

  /** The surrogates of a supplementary scalar, found in a view, decode to it and advance two units. */
  lemma DecodePair(s: seq<bv16>, begin: nat, end: nat, ch: bv32)
    requires 0x10000 <= ch < 0x110000
    requires begin + 2 <= end <= |s|
    requires s[begin] == HighHalf(ch) && s[begin + 1] == LowHalf(ch)
    ensures Decode(s, begin, end) == Decoded(ch, begin + 2)
  {
    PairForm(ch);
  }

  /**
   * Round trip: for every Unicode scalar value, writing it into a view with
   * room stores one or two units, and decoding from the view's begin gives
   * the scalar back and advances past exactly those units.
   */
  lemma RoundTrip(t: Target<bv16>, ch: bv32, end: nat)
    requires t.Write? && t.Valid()
    requires IsScalarValue(ch) && Width(ch) <= t.end - t.begin
    requires t.begin + Width(ch) <= end <= |t.units|
    ensures Encode(t, ch).count == Width(ch)
    ensures Decode(Encode(t, ch).target.units, t.begin, end) == Decoded(ch, t.begin + Width(ch))
  {
    DecodeForm(Encode(t, ch).target.units, t.begin, end, ch);
  }

  /** Measuring gives the count that writing with enough room stores; with too little room, writing stores nothing. */
  lemma MeasureMatchesWrite(units: seq<bv16>, begin: nat, end: nat, ch: bv32)
    requires begin <= end <= |units|
    ensures Encode(Measure, ch).count <= end - begin ==>
              Encode(Write(units, begin, end), ch).count == Encode(Measure, ch).count
    ensures Encode(Measure, ch).count > end - begin ==>
              Encode(Write(units, begin, end), ch) == Encoded(0, Write(units, begin, end))
  {
  }

  /** Splitting the scalar a high and a low surrogate combine to gives back the two surrogates. */
  lemma SplitCombine(hi: bv16, lo: bv16)
    requires IsHighSurrogate(hi as bv32) && IsLowSurrogate(lo as bv32)
    ensures HighHalf(Combine(hi, lo)) == hi
    ensures LowHalf(Combine(hi, lo)) == lo
  {
  }

  /**
   * The converse round trip on well-formed input: a high surrogate followed
   * by a low surrogate decodes to a scalar whose encoding is that same pair.
   */
  lemma PairDecodesAndReencodes(hi: bv16, lo: bv16)
    requires IsHighSurrogate(hi as bv32) && IsLowSurrogate(lo as bv32)
    ensures var d := Decode([hi, lo], 0, 2);
            && d.next == 2
            && Encode(Write([0, 0], 0, 2), d.scalar) == Encoded(2, Write([hi, lo], 0, 2))
  {
    var c := Combine(hi, lo);
    assert Decode([hi, lo], 0, 2) == Decoded(c, 2);
    assert Encode(Write([0, 0], 0, 2), c) == Encoded(2, Write([hi, lo], 0, 2)) by {
      SplitCombine(hi, lo);
      var u := Encode(Write([0, 0], 0, 2), c).target.units;
      assert u == u[0..2] == Form(c) == [hi, lo];
    }
  }

  /** A high surrogate is combined with any next unit, here the letter A, which it swallows. */
  lemma HighSurrogateTakesAnyUnit()
    ensures Decode([0xD800, 0x0041], 0, 2) == Decoded(0x10041, 2)
  {
  }

  /** A lone high surrogate at the end of the view yields U+FFFD and consumes the view. */
  lemma LoneHighSurrogateAtEnd()
    ensures Decode([0x0041, 0xD800], 1, 2) == Decoded(Replacement, 2)
  {
  }

  /** The surrogate code point 0xD800 cannot be encoded, in either mode. */
  lemma SurrogateRejected(units: seq<bv16>)
    ensures Encode(Measure, 0xD800).count == 0
    ensures Encode(Write(units, 0, |units|), 0xD800).count == 0
  {
  }
}
