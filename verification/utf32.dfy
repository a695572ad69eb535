/**
 * UTF-32: the single-scalar decoder `frog_decode_utf32` and encoder
 * `frog_encode_utf32`. Both pass every 32-bit value through unchanged; the
 * encoder fails only when the destination view is full.
 */
module Utf32 {
  import opened Units

  /** Decodes one unit of the non-empty view `[begin, end)`: the unit is the scalar, whatever its value. */
  function Decode(s: seq<bv32>, begin: nat, end: nat): (d: Decoded)
    requires begin < end <= |s|
    ensures begin < d.next <= end
    ensures d == Decoded(s[begin], begin + 1)
  {
    Decoded(s[begin], begin + 1)
  }

  /**
   * Encodes one scalar as one unit. Measuring always reports 1; writing
   * reports 1 when the view has room and otherwise 0, storing nothing.
   */
  function Encode(t: Target<bv32>, ch: bv32): (r: Encoded<bv32>)
    requires t.Valid()
    ensures r.target.Valid()
    ensures WritesWithin(t, r.target, r.count)
    ensures r.count == 0 ==> r.target == t
    ensures t.Measure? ==> r.count == 1
    ensures t.Write? ==> r.count == if t.begin < t.end then 1 else 0
    ensures t.Write? && r.count > 0 ==> r.target.units[t.begin] == ch
  {
    var r := Store(t, [ch]);
    assert t.Write? && r.count > 0 ==> r.target.units[t.begin] == r.target.units[t.begin..t.begin + 1][0];
    r
  }

  /** Round trip on every 32-bit value: the unit written decodes back to the same value. */
  lemma RoundTrip(t: Target<bv32>, ch: bv32, end: nat)
    requires t.Write? && t.Valid() && t.begin < t.end
    requires t.begin < end <= |t.units|
    ensures Encode(t, ch).count == 1
    ensures Decode(Encode(t, ch).target.units, t.begin, end) == Decoded(ch, t.begin + 1)
  {
    var u := Encode(t, ch).target.units;
    assert u[t.begin..t.begin + 1] == [ch];
    assert u[t.begin] == u[t.begin..t.begin + 1][0];
  }

  /** The converse round trip: re-encoding a decoded unit writes that same unit, for every 32-bit value. */
  lemma DecodeThenEncode(s: seq<bv32>, begin: nat, end: nat)
    requires begin < end <= |s|
    ensures Encode(Write([0], 0, 1), Decode(s, begin, end).scalar) == Encoded(1, Write([s[begin]], 0, 1))
  {
    var u := Encode(Write([0], 0, 1), s[begin]).target.units;
    assert u[0..1] == [s[begin]];
  }
}
