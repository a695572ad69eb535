/**
 * Width dispatch: `frog_decode_gen` and `frog_encode_gen` route a call to
 * the decoder or encoder of the buffer's encoding. The C code dispatches on
 * a byte width over untyped memory; a tagged `Buffer` makes the three
 * encodings the only cases, so the unreachable fallback has no counterpart.
 */
module Dispatch {
  import opened Units
  import Utf8
  import Utf16
  import Utf32

  /** Decodes one scalar from the non-empty view `[begin, end)` of `src`, in `src`'s encoding. */
  function DecodeGen(src: Buffer, begin: nat, end: nat): (d: Decoded)
    requires begin < end <= src.Length()
    ensures begin < d.next <= end
    ensures src.Encoding() == Utf8 ==> d.scalar < Utf8.Limit
    ensures src.Encoding() == Utf16 ==> IsScalarValue(d.scalar)
  {
    match src
    case Buf8(s) => Utf8.Decode(s, begin, end)
    case Buf16(s) => Utf16.Decode(s, begin, end)
    case Buf32(s) => Utf32.Decode(s, begin, end)
  }

  /** The units `ch` takes in encoding `e`, or 0 when `e` cannot represent it. */
  function Width(e: Encoding, ch: bv32): (n: nat)
    ensures n <= 4
    ensures n == 0 <==> (e == Utf8 && ch >= Utf8.Limit) || (e == Utf16 && !IsScalarValue(ch))
  {
    match e
    case Utf8 => Utf8.Width(ch)
    case Utf16 => Utf16.Width(ch)
    case Utf32 => 1
  }

  /**
   * The destination of the generic encoder: `Sizing` is the null
   * destination, which only measures; `Into` is the writable view
   * `[begin, end)` of a buffer.
   */
  datatype Sink = Sizing(enc: Encoding) | Into(buf: Buffer, begin: nat, end: nat) {
    predicate Valid() {
      Into? ==> begin <= end <= buf.Length()
    }

    function Encoding(): Encoding {
      match this
      case Sizing(e) => e
      case Into(b, _, _) => b.Encoding()
    }
  }

  /** The result of the generic encoder: the unit count and the sink after the call. */
  datatype Emitted = Emitted(count: nat, sink: Sink)

  /**
   * Encodes one scalar into `s`, in `s`'s encoding. Measuring reports the
   * scalar's width; writing reports that width and stores the units when
   * they fit, and otherwise reports 0 and leaves the buffer as it was.
   * Nothing outside the units it reports is ever changed.
   */
  function EncodeGen(s: Sink, ch: bv32): (r: Emitted)
    requires s.Valid()
    ensures r.sink.Valid()
    ensures r.sink.Encoding() == s.Encoding()
    ensures r.count == 0 ==> r.sink == s
    ensures s.Sizing? ==> r.sink == s && r.count == Width(s.enc, ch)
    ensures s.Into? ==>
              && r.sink.Into?
              && r.sink.begin == s.begin && r.sink.end == s.end
              && r.sink.buf.Length() == s.buf.Length()
              && r.count == (if Width(s.Encoding(), ch) <= s.end - s.begin then Width(s.Encoding(), ch) else 0)
              && s.begin + r.count <= s.end
              && forall k :: 0 <= k < s.buf.Length() && !(s.begin <= k < s.begin + r.count) ==>
                   r.sink.buf.At(k) == s.buf.At(k)
  {
    match s
    case Sizing(Utf8) => Emitted(Utf8.Encode(Measure, ch).count, s)
    case Sizing(Utf16) => Emitted(Utf16.Encode(Measure, ch).count, s)
    case Sizing(Utf32) => Emitted(Utf32.Encode(Measure, ch).count, s)
    case Into(Buf8(u), begin, end) =>
      var r := Utf8.Encode(Write(u, begin, end), ch);
      Emitted(r.count, Into(Buf8(r.target.units), begin, end))
    case Into(Buf16(u), begin, end) =>
      var r := Utf16.Encode(Write(u, begin, end), ch);
      Emitted(r.count, Into(Buf16(r.target.units), begin, end))
    case Into(Buf32(u), begin, end) =>
      var r := Utf32.Encode(Write(u, begin, end), ch);
      Emitted(r.count, Into(Buf32(r.target.units), begin, end))
  }

  /**
   * The units the encoder of `e` produces for `ch`: its UTF-8 or UTF-16
   * form, the single unit `ch` in UTF-32, and nothing when `e` cannot
   * represent it.
   */
  function Form(e: Encoding, ch: bv32): (f: Buffer)
    ensures f.Encoding() == e && f.Length() == Width(e, ch)
  {
    match e
    case Utf8 => if ch < Utf8.Limit then Buf8(Utf8.Form(ch)) else Buf8([])
    case Utf16 => if IsScalarValue(ch) then Buf16(Utf16.Form(ch)) else Buf16([])
    case Utf32 => Buf32([ch])
  }

  /**
   * When the scalar's units fit in the view, a writing encode reports them
   * all and stores the scalar's form from the view's begin.
   */
  lemma EncodeGenWrites(s: Sink, ch: bv32)
    requires s.Into? && s.Valid()
    requires s.begin + Width(s.buf.Encoding(), ch) <= s.end
    ensures var r := EncodeGen(s, ch);
            && r.count == Width(s.buf.Encoding(), ch)
            && Slice(r.sink.buf, s.begin, s.begin + r.count) == Form(s.buf.Encoding(), ch)
  {
    match s.buf
    case Buf8(_) => Utf8Writes(s, ch);
    case Buf16(_) => Utf16Writes(s, ch);
    case Buf32(_) =>
  }

  /** The UTF-8 case of EncodeGenWrites. */
  lemma Utf8Writes(s: Sink, ch: bv32)
    requires s.Into? && s.Valid() && s.buf.Buf8?
    requires s.begin + Width(Utf8, ch) <= s.end
    ensures var r := EncodeGen(s, ch);
            && r.count == Width(Utf8, ch)
            && Slice(r.sink.buf, s.begin, s.begin + r.count) == Form(Utf8, ch)
  {
    var w := Utf8.Encode(Write(s.buf.u8, s.begin, s.end), ch);
    assert EncodeGen(s, ch) == Emitted(w.count, Into(Buf8(w.target.units), s.begin, s.end));
  }

  /** The UTF-16 case of EncodeGenWrites. */
  lemma Utf16Writes(s: Sink, ch: bv32)
    requires s.Into? && s.Valid() && s.buf.Buf16?
    requires s.begin + Width(Utf16, ch) <= s.end
    ensures var r := EncodeGen(s, ch);
            && r.count == Width(Utf16, ch)
            && Slice(r.sink.buf, s.begin, s.begin + r.count) == Form(Utf16, ch)
  {
    var w := Utf16.Encode(Write(s.buf.u16, s.begin, s.end), ch);
    assert EncodeGen(s, ch) == Emitted(w.count, Into(Buf16(w.target.units), s.begin, s.end));
  }
}
