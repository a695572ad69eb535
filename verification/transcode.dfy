/**
 * The sequence driver `frog_str_gen_to_gen` and its six wrappers: decode
 * the source one scalar at a time, encode each scalar into the destination
 * at the running total, and stop at the end of the source or right after
 * encoding a decoded zero.
 *
 * The source view is the whole source buffer (`src_length` is its length)
 * and the destination's `dst_length` is the length of the destination
 * buffer. A null destination is `Measuring`, which only counts.
 */
module Transcode {
  import opened Units
  import Dispatch

  /** The destination of a conversion: the null destination, which measures, or a buffer to fill. */
  datatype Destination = Measuring(enc: Encoding) | Writing(buf: Buffer) {
    function Encoding(): Encoding {
      match this
      case Measuring(e) => e
      case Writing(b) => b.Encoding()
    }

    /** A running total the destination can hold: any when measuring, at most the buffer length when writing. */
    predicate Holds(total: nat) {
      Writing? ==> total <= buf.Length()
    }
  }

  /** The total number of units produced and the destination after the conversion. */
  datatype Outcome = Outcome(total: nat, dst: Destination)

  /**
   * One encode call of the loop, at output offset `total`. Measuring adds
   * the scalar's width; writing adds it and stores the units when they fit
   * before the end of the buffer, and otherwise adds 0 and stores nothing.
   */
  function Emit(dst: Destination, total: nat, ch: bv32): (r: Outcome)
    requires dst.Holds(total)
    ensures total <= r.total && r.dst.Holds(r.total)
    ensures r.dst.Encoding() == dst.Encoding()
    ensures dst.Measuring? ==> r.dst == dst && r.total == total + Dispatch.Width(dst.enc, ch)
    ensures dst.Writing? ==>
              && r.dst.Writing?
              && r.dst.buf.Length() == dst.buf.Length()
              && (if total + Dispatch.Width(dst.Encoding(), ch) <= dst.buf.Length()
                  then r.total == total + Dispatch.Width(dst.Encoding(), ch)
                  else r == Outcome(total, dst))
              && forall k :: 0 <= k < dst.buf.Length() && !(total <= k < r.total) ==>
                   r.dst.buf.At(k) == dst.buf.At(k)
    ensures dst.Writing? && total + Dispatch.Width(dst.Encoding(), ch) <= dst.buf.Length() ==>
              Slice(r.dst.buf, total, r.total) == Dispatch.Form(dst.Encoding(), ch)
  {
    match dst
    case Measuring(e) =>
      Outcome(total + Dispatch.EncodeGen(Dispatch.Sizing(e), ch).count, dst)
    case Writing(buf) =>
      var s := Dispatch.Into(buf, total, buf.Length());
      var e := Dispatch.EncodeGen(s, ch);
      // Both arms give the same value; the first only adds the proof of the stored form.
      if total + Dispatch.Width(buf.Encoding(), ch) <= buf.Length() then
        Dispatch.EncodeGenWrites(s, ch);
        Outcome(total + e.count, Writing(e.sink.buf))
      else
        Outcome(total + e.count, Writing(e.sink.buf))
  }

  /**
   * The loop of the driver from source index `pos` and running total
   * `total`. Writing never reports more than the buffer holds, and never
   * changes a unit outside the units it reports from `total` on.
   */
  function Run(dst: Destination, src: Buffer, pos: nat, total: nat): (r: Outcome)
    requires pos <= src.Length() && dst.Holds(total)
    ensures total <= r.total && r.dst.Holds(r.total)
    ensures r.dst.Encoding() == dst.Encoding()
    ensures dst.Measuring? ==> r.dst == dst
    ensures dst.Writing? ==>
              && r.dst.Writing?
              && r.dst.buf.Length() == dst.buf.Length()
              && forall k :: 0 <= k < dst.buf.Length() && !(total <= k < r.total) ==>
                   r.dst.buf.At(k) == dst.buf.At(k)
    decreases src.Length() - pos
  {
    if pos == src.Length() then
      Outcome(total, dst)
    else
      var d := Dispatch.DecodeGen(src, pos, src.Length());
      var o := Emit(dst, total, d.scalar);
      if d.scalar == 0 then o else Run(o.dst, src, d.next, o.total)
  }

  /** The conversion `frog_str_gen_to_gen` performs: the loop from the start of both buffers. */
  function StrGenToGen(dst: Destination, src: Buffer): (r: Outcome)
    requires dst.Holds(0)
    ensures r.dst.Encoding() == dst.Encoding()
    ensures dst.Measuring? ==> r.dst == dst && r.total == Measured(dst.enc, src)
    ensures dst.Writing? ==> r.dst.Writing? && r.dst.buf.Length() == dst.buf.Length()
    ensures dst.Writing? ==> r.total <= dst.buf.Length()
    ensures dst.Writing? ==> forall k :: r.total <= k < dst.buf.Length() ==> r.dst.buf.At(k) == dst.buf.At(k)
    ensures dst.Writing? && Measured(dst.Encoding(), src) <= dst.buf.Length() ==>
              && r.total == Measured(dst.Encoding(), src)
              && Slice(r.dst.buf, 0, r.total) == Forms(dst.Encoding(), Scalars(src, 0))
  {
    var r := Run(dst, src, 0, 0);
    MeasuredTotal(dst.Encoding(), src, 0, 0);
    // Both arms give `r`; the first only adds the proof of the stored forms.
    if dst.Writing? && Measured(dst.Encoding(), src) <= dst.buf.Length() then
      WriteWithRoom(dst.buf, src, 0, 0);
      r
    else
      r
  }

  // Reference definitions: what the loop decodes and what it should produce.

  /**
   * The scalars the loop decodes from `pos`: one per decode step, up to the
   * end of the source or up to and including the first zero.
   */
  function Scalars(src: Buffer, pos: nat): (chs: seq<bv32>)
    requires pos <= src.Length()
    ensures |chs| <= src.Length() - pos
    ensures |chs| == 0 <==> pos == src.Length()
    ensures forall i :: 0 <= i < |chs| - 1 ==> chs[i] != 0
    decreases src.Length() - pos
  {
    if pos == src.Length() then
      []
    else
      var d := Dispatch.DecodeGen(src, pos, src.Length());
      if d.scalar == 0 then [0] else [d.scalar] + Scalars(src, d.next)
  }

  /** The units `chs` take in encoding `e`, rejected scalars counting 0. */
  function SumWidths(e: Encoding, chs: seq<bv32>): nat {
    if |chs| == 0 then 0 else Dispatch.Width(e, chs[0]) + SumWidths(e, chs[1..])
  }

  /** The units the driver produces for `src` in encoding `e` when nothing limits it. */
  function Measured(e: Encoding, src: Buffer): nat {
    SumWidths(e, Scalars(src, 0))
  }

  /** The forms of `chs` in encoding `e`, one after the other. */
  function Forms(e: Encoding, chs: seq<bv32>): (f: Buffer)
    ensures f.Encoding() == e && f.Length() == SumWidths(e, chs)
  {
    if |chs| == 0 then Empty(e) else Concat(Dispatch.Form(e, chs[0]), Forms(e, chs[1..]))
  }

  /** A unit of a concatenation comes from the first part or, past its end, from the second. */
  lemma ConcatAt(a: Buffer, b: Buffer, k: nat)
    requires a.Encoding() == b.Encoding() && k < a.Length() + b.Length()
    ensures Concat(a, b).At(k) == if k < a.Length() then a.At(k) else b.At(k - a.Length())
  {
    if k >= a.Length() {
      assert Concat(a, b).At(a.Length() + (k - a.Length())) == b.At(k - a.Length());
    }
  }

  /** Measuring from `pos` adds the widths of the scalars decoded from `pos` to the running total. */
  lemma {:induction false} MeasuredTotal(e: Encoding, src: Buffer, pos: nat, total: nat)
    requires pos <= src.Length()
    ensures Run(Measuring(e), src, pos, total).total == total + SumWidths(e, Scalars(src, pos))
    decreases src.Length() - pos
  {
    if pos < src.Length() {
      var d := Dispatch.DecodeGen(src, pos, src.Length());
      var chs := Scalars(src, pos);
      var o := Emit(Measuring(e), total, d.scalar);
      assert o == Outcome(total + Dispatch.Width(e, d.scalar), Measuring(e));
      if d.scalar == 0 {
        assert chs == [0];
        assert Run(Measuring(e), src, pos, total) == o;
        assert SumWidths(e, chs) == Dispatch.Width(e, 0) + SumWidths(e, []);
      } else {
        assert chs[1..] == Scalars(src, d.next);
        assert Run(Measuring(e), src, pos, total) == Run(Measuring(e), src, d.next, o.total);
        MeasuredTotal(e, src, d.next, o.total);
      }
    }
  }

  /**
   * With room for everything measuring counts, writing from `pos` reports
   * the measured total and stores exactly the forms of the decoded scalars
   * from `total` on.
   */
  lemma {:induction false} WriteWithRoom(buf: Buffer, src: Buffer, pos: nat, total: nat)
    requires pos <= src.Length()
    requires total + SumWidths(buf.Encoding(), Scalars(src, pos)) <= buf.Length()
    ensures WroteForms(buf, src, pos, total)
    decreases src.Length() - pos
  {
    if pos < src.Length() {
      var d := Dispatch.DecodeGen(src, pos, src.Length());
      if d.scalar == 0 {
        WriteLast(buf, src, pos, total);
      } else {
        var o := Emit(Writing(buf), total, d.scalar);
        WriteNext(buf, src, pos, total);
        WriteWithRoom(o.dst.buf, src, d.next, o.total);
        WriteStep(buf, src, pos, total);
      }
    }
  }

  /**
   * Writing from `pos` reports the running total plus the widths of the
   * decoded scalars and stores their forms from `total` on.
   */
  ghost predicate WroteForms(buf: Buffer, src: Buffer, pos: nat, total: nat)
    requires pos <= src.Length() && total <= buf.Length()
  {
    var r := Run(Writing(buf), src, pos, total);
    && r.total == total + SumWidths(buf.Encoding(), Scalars(src, pos))
    && Slice(r.dst.buf, total, r.total) == Forms(buf.Encoding(), Scalars(src, pos))
  }

  /** The step of WriteWithRoom that writes a decoded zero and ends the run. */
  lemma WriteLast(buf: Buffer, src: Buffer, pos: nat, total: nat)
    requires pos < src.Length()
    requires Dispatch.DecodeGen(src, pos, src.Length()).scalar == 0
    requires total + SumWidths(buf.Encoding(), Scalars(src, pos)) <= buf.Length()
    ensures WroteForms(buf, src, pos, total)
  {
    var e := buf.Encoding();
    var chs := Scalars(src, pos);
    assert chs == [0];
    var o := Emit(Writing(buf), total, 0);
    EmitWrites(buf, total, 0);
    assert Run(Writing(buf), src, pos, total) == o;
    assert Forms(e, chs) == Concat(Dispatch.Form(e, 0), Empty(e));
    SameUnitsEqual(Forms(e, chs), Dispatch.Form(e, 0));
  }

  /** Room for the rest of the run remains after a step that writes a nonzero scalar. */
  lemma WriteNext(buf: Buffer, src: Buffer, pos: nat, total: nat)
    requires pos < src.Length()
    requires Dispatch.DecodeGen(src, pos, src.Length()).scalar != 0
    requires total + SumWidths(buf.Encoding(), Scalars(src, pos)) <= buf.Length()
    ensures var d := Dispatch.DecodeGen(src, pos, src.Length());
            var o := Emit(Writing(buf), total, d.scalar);
            && o.dst.Writing?
            && o.dst.buf.Encoding() == buf.Encoding()
            && o.total + SumWidths(buf.Encoding(), Scalars(src, d.next)) <= o.dst.buf.Length()
  {
    var d := Dispatch.DecodeGen(src, pos, src.Length());
    assert Scalars(src, pos)[1..] == Scalars(src, d.next);
  }

  /** The step of WriteWithRoom that writes a nonzero scalar and continues with the rest. */
  lemma WriteStep(buf: Buffer, src: Buffer, pos: nat, total: nat)
    requires pos < src.Length()
    requires Dispatch.DecodeGen(src, pos, src.Length()).scalar != 0
    requires total + SumWidths(buf.Encoding(), Scalars(src, pos)) <= buf.Length()
    requires var d := Dispatch.DecodeGen(src, pos, src.Length());
             var o := Emit(Writing(buf), total, d.scalar);
             && o.total + SumWidths(buf.Encoding(), Scalars(src, d.next)) <= o.dst.buf.Length()
             && WroteForms(o.dst.buf, src, d.next, o.total)
    ensures WroteForms(buf, src, pos, total)
  {
    var e := buf.Encoding();
    var d := Dispatch.DecodeGen(src, pos, src.Length());
    var chs := Scalars(src, pos);
    var rest := Scalars(src, d.next);
    assert chs[1..] == rest;
    var head := Dispatch.Form(e, d.scalar);
    var o := Emit(Writing(buf), total, d.scalar);
    EmitWrites(buf, total, d.scalar);
    var ob := o.dst.buf;
    assert Run(Writing(buf), src, pos, total) == Run(Writing(ob), src, d.next, o.total);
    assert Forms(e, chs) == Concat(head, Forms(e, rest));
    var r := Run(Writing(ob), src, d.next, o.total);
    Stitch(r.dst.buf, ob, total, o.total, r.total);
  }

  /**
   * With room, one writing encode stores the scalar's form at the running
   * total and adds its width.
   */
  lemma EmitWrites(buf: Buffer, total: nat, ch: bv32)
    requires total + Dispatch.Width(buf.Encoding(), ch) <= buf.Length()
    ensures var o := Emit(Writing(buf), total, ch);
            && o.dst == Writing(o.dst.buf)
            && o.dst.buf.Encoding() == buf.Encoding()
            && o.total == total + Dispatch.Width(buf.Encoding(), ch)
            && Slice(o.dst.buf, total, o.total) == Dispatch.Form(buf.Encoding(), ch)
  {
    var sink := Dispatch.Into(buf, total, buf.Length());
    var g := Dispatch.EncodeGen(sink, ch);
    assert Emit(Writing(buf), total, ch) == Outcome(total + g.count, Writing(g.sink.buf));
    Dispatch.EncodeGenWrites(sink, ch);
  }

  /**
   * Stitching the content of one step to the content of the rest of the
   * run: when the rest of the run turns `ob` into `rb` changing only
   * `[mid, last)`, the units of `rb` from `total` to `last` are those of
   * `ob` up to `mid` followed by those of `rb` from `mid`.
   */
  lemma Stitch(rb: Buffer, ob: Buffer, total: nat, mid: nat, last: nat)
    requires rb.Encoding() == ob.Encoding()
    requires total <= mid <= last <= ob.Length() == rb.Length()
    requires forall k :: 0 <= k < ob.Length() && !(mid <= k < last) ==> rb.At(k) == ob.At(k)
    ensures Slice(rb, total, last) == Concat(Slice(ob, total, mid), Slice(rb, mid, last))
  {
    var c := Concat(Slice(ob, total, mid), Slice(rb, mid, last));
    forall k | 0 <= k < last - total
      ensures Slice(rb, total, last).At(k) == c.At(k)
    {
      ConcatAt(Slice(ob, total, mid), Slice(rb, mid, last), k);
    }
    SameUnitsEqual(Slice(rb, total, last), c);
  }

  /**
   * The loop as the C code writes it: a `while` over the source index that
   * breaks after encoding a zero. `steps` counts the decode calls.
   */
  method Convert(dst: Destination, src: Buffer) returns (r: Outcome, steps: nat)
    requires dst.Holds(0)
    ensures r == StrGenToGen(dst, src)
    ensures steps == |Scalars(src, 0)| && steps <= src.Length()
  {
    var pos := 0;
    var total := 0;
    var out := dst;
    steps := 0;
    while pos < src.Length()
      invariant pos <= src.Length() && out.Holds(total)
      invariant Run(out, src, pos, total) == Run(dst, src, 0, 0)
      invariant steps + |Scalars(src, pos)| == |Scalars(src, 0)|
      decreases src.Length() - pos
    {
      var d := Dispatch.DecodeGen(src, pos, src.Length());
      var o := Emit(out, total, d.scalar);
      steps := steps + 1;
      if d.scalar == 0 {
        return o, steps;
      }
      pos, total, out := d.next, o.total, o.dst;
    }
    r := Outcome(total, out);
  }

  // The six entry points. Each fixes the two encodings and returns the
  // total together with the destination after the call.

  /** The result of an entry point: the returned total and, when writing, the destination buffer afterwards. */
  datatype Converted<T> = Converted(length: nat, dst: Option<seq<T>>)

  /** `frog_str_utf8_to_utf16`: UTF-8 to UTF-16; `None` is the null destination. */
  function Utf8ToUtf16(dst: Option<seq<bv16>>, src: seq<bv8>): (r: Converted<bv16>)
    ensures r.dst.Some? <==> dst.Some?
    ensures dst.None? ==> r.length == Measured(Utf16, Buf8(src))
    ensures dst.Some? ==> |r.dst.value| == |dst.value| && r.length <= |dst.value|
    ensures dst.Some? ==> r.dst.value[r.length..] == dst.value[r.length..]
    ensures dst.Some? && Measured(Utf16, Buf8(src)) <= |dst.value| ==>
              && r.length == Measured(Utf16, Buf8(src))
              && Buf16(r.dst.value[..r.length]) == Forms(Utf16, Scalars(Buf8(src), 0))
  {
    match dst
    case None => Converted(StrGenToGen(Measuring(Utf16), Buf8(src)).total, None)
    case Some(d) =>
      var o := StrGenToGen(Writing(Buf16(d)), Buf8(src));
      TailsEqual(Buf16(d), o.dst.buf, o.total);
      Converted(o.total, Some(o.dst.buf.u16))
  }

  /** `frog_str_utf8_to_utf32`: UTF-8 to UTF-32; `None` is the null destination. */
  function Utf8ToUtf32(dst: Option<seq<bv32>>, src: seq<bv8>): (r: Converted<bv32>)
    ensures r.dst.Some? <==> dst.Some?
    ensures dst.None? ==> r.length == Measured(Utf32, Buf8(src))
    ensures dst.Some? ==> |r.dst.value| == |dst.value| && r.length <= |dst.value|
    ensures dst.Some? ==> r.dst.value[r.length..] == dst.value[r.length..]
    ensures dst.Some? && Measured(Utf32, Buf8(src)) <= |dst.value| ==>
              && r.length == Measured(Utf32, Buf8(src))
              && Buf32(r.dst.value[..r.length]) == Forms(Utf32, Scalars(Buf8(src), 0))
  {
    match dst
    case None => Converted(StrGenToGen(Measuring(Utf32), Buf8(src)).total, None)
    case Some(d) =>
      var o := StrGenToGen(Writing(Buf32(d)), Buf8(src));
      TailsEqual(Buf32(d), o.dst.buf, o.total);
      Converted(o.total, Some(o.dst.buf.u32))
  }

  /** `frog_str_utf16_to_utf8`: UTF-16 to UTF-8; `None` is the null destination. */
  function Utf16ToUtf8(dst: Option<seq<bv8>>, src: seq<bv16>): (r: Converted<bv8>)
    ensures r.dst.Some? <==> dst.Some?
    ensures dst.None? ==> r.length == Measured(Utf8, Buf16(src))
    ensures dst.Some? ==> |r.dst.value| == |dst.value| && r.length <= |dst.value|
    ensures dst.Some? ==> r.dst.value[r.length..] == dst.value[r.length..]
    ensures dst.Some? && Measured(Utf8, Buf16(src)) <= |dst.value| ==>
              && r.length == Measured(Utf8, Buf16(src))
              && Buf8(r.dst.value[..r.length]) == Forms(Utf8, Scalars(Buf16(src), 0))
  {
    match dst
    case None => Converted(StrGenToGen(Measuring(Utf8), Buf16(src)).total, None)
    case Some(d) =>
      var o := StrGenToGen(Writing(Buf8(d)), Buf16(src));
      TailsEqual(Buf8(d), o.dst.buf, o.total);
      Converted(o.total, Some(o.dst.buf.u8))
  }

  /** `frog_str_utf16_to_utf32`: UTF-16 to UTF-32; `None` is the null destination. */
  function Utf16ToUtf32(dst: Option<seq<bv32>>, src: seq<bv16>): (r: Converted<bv32>)
    ensures r.dst.Some? <==> dst.Some?
    ensures dst.None? ==> r.length == Measured(Utf32, Buf16(src))
    ensures dst.Some? ==> |r.dst.value| == |dst.value| && r.length <= |dst.value|
    ensures dst.Some? ==> r.dst.value[r.length..] == dst.value[r.length..]
    ensures dst.Some? && Measured(Utf32, Buf16(src)) <= |dst.value| ==>
              && r.length == Measured(Utf32, Buf16(src))
              && Buf32(r.dst.value[..r.length]) == Forms(Utf32, Scalars(Buf16(src), 0))
  {
    match dst
    case None => Converted(StrGenToGen(Measuring(Utf32), Buf16(src)).total, None)
    case Some(d) =>
      var o := StrGenToGen(Writing(Buf32(d)), Buf16(src));
      TailsEqual(Buf32(d), o.dst.buf, o.total);
      Converted(o.total, Some(o.dst.buf.u32))
  }

  /** `frog_str_utf32_to_utf8`: UTF-32 to UTF-8; `None` is the null destination. */
  function Utf32ToUtf8(dst: Option<seq<bv8>>, src: seq<bv32>): (r: Converted<bv8>)
    ensures r.dst.Some? <==> dst.Some?
    ensures dst.None? ==> r.length == Measured(Utf8, Buf32(src))
    ensures dst.Some? ==> |r.dst.value| == |dst.value| && r.length <= |dst.value|
    ensures dst.Some? ==> r.dst.value[r.length..] == dst.value[r.length..]
    ensures dst.Some? && Measured(Utf8, Buf32(src)) <= |dst.value| ==>
              && r.length == Measured(Utf8, Buf32(src))
              && Buf8(r.dst.value[..r.length]) == Forms(Utf8, Scalars(Buf32(src), 0))
  {
    match dst
    case None => Converted(StrGenToGen(Measuring(Utf8), Buf32(src)).total, None)
    case Some(d) =>
      var o := StrGenToGen(Writing(Buf8(d)), Buf32(src));
      TailsEqual(Buf8(d), o.dst.buf, o.total);
      Converted(o.total, Some(o.dst.buf.u8))
  }

  /** `frog_str_utf32_to_utf16`: UTF-32 to UTF-16; `None` is the null destination. */
  function Utf32ToUtf16(dst: Option<seq<bv16>>, src: seq<bv32>): (r: Converted<bv16>)
    ensures r.dst.Some? <==> dst.Some?
    ensures dst.None? ==> r.length == Measured(Utf16, Buf32(src))
    ensures dst.Some? ==> |r.dst.value| == |dst.value| && r.length <= |dst.value|
    ensures dst.Some? ==> r.dst.value[r.length..] == dst.value[r.length..]
    ensures dst.Some? && Measured(Utf16, Buf32(src)) <= |dst.value| ==>
              && r.length == Measured(Utf16, Buf32(src))
              && Buf16(r.dst.value[..r.length]) == Forms(Utf16, Scalars(Buf32(src), 0))
  {
    match dst
    case None => Converted(StrGenToGen(Measuring(Utf16), Buf32(src)).total, None)
    case Some(d) =>
      var o := StrGenToGen(Writing(Buf16(d)), Buf32(src));
      TailsEqual(Buf16(d), o.dst.buf, o.total);
      Converted(o.total, Some(o.dst.buf.u16))
  }

  // Worked cases of the loop's edge behaviour, each traced one decode and
  // encode step at a time.

  /**
   * The loop stops right after the zero: of 'A', NUL, 'B' only 'A' and the
   * NUL are converted, in both modes, and the rest of the destination is
   * left as it was.
   */
  lemma StopsAfterZero()
    ensures Utf8ToUtf16(None, [0x41, 0x00, 0x42]) == Converted(2, None)
    ensures Utf8ToUtf16(Some([9, 9, 9, 9]), [0x41, 0x00, 0x42]) == Converted(2, Some([0x41, 0x00, 9, 9]))
  {
    var src := Buf8([0x41, 0x00, 0x42]);
    assert Dispatch.DecodeGen(src, 0, 3) == Decoded(0x41, 1);
    assert Dispatch.DecodeGen(src, 1, 3) == Decoded(0, 2);
    MeasureANul(src);
    WriteANul(src);
  }

  /**
   * Measuring half of StopsAfterZero. The decode facts in the requires
   * follow from the first one; the caller proves them so that each proof stays small.
   */
  lemma MeasureANul(src: Buffer)
    requires src == Buf8([0x41, 0x00, 0x42])
    requires Dispatch.DecodeGen(src, 0, 3) == Decoded(0x41, 1)
    requires Dispatch.DecodeGen(src, 1, 3) == Decoded(0, 2)
    ensures Run(Measuring(Utf16), src, 0, 0) == Outcome(2, Measuring(Utf16))
  {
    var m := Measuring(Utf16);
    assert Run(m, src, 0, 0) == Run(m, src, 1, 1);
  }

  /**
   * Writing half of StopsAfterZero. The decode facts in the requires
   * follow from the first one; the caller proves them so that each proof stays small.
   */
  lemma WriteANul(src: Buffer)
    requires src == Buf8([0x41, 0x00, 0x42])
    requires Dispatch.DecodeGen(src, 0, 3) == Decoded(0x41, 1)
    requires Dispatch.DecodeGen(src, 1, 3) == Decoded(0, 2)
    ensures Run(Writing(Buf16([9, 9, 9, 9])), src, 0, 0) == Outcome(2, Writing(Buf16([0x41, 0, 9, 9])))
  {
    var w0 := Writing(Buf16([9, 9, 9, 9]));
    var w1 := Writing(Buf16([0x41, 9, 9, 9]));
    var w2 := Writing(Buf16([0x41, 0, 9, 9]));
    assert Dispatch.EncodeGen(Dispatch.Into(Buf16([9, 9, 9, 9]), 0, 4), 0x41) == Dispatch.Emitted(1, Dispatch.Into(Buf16([0x41, 9, 9, 9]), 0, 4));
    assert Dispatch.EncodeGen(Dispatch.Into(Buf16([0x41, 9, 9, 9]), 1, 4), 0) == Dispatch.Emitted(1, Dispatch.Into(Buf16([0x41, 0, 9, 9]), 1, 4));
    assert Emit(w0, 0, 0x41) == Outcome(1, w1);
    assert Emit(w1, 1, 0) == Outcome(2, w2);
    assert Run(w0, src, 0, 0) == Run(w1, src, 1, 1);
  }

  /** An empty source converts to nothing; in particular no terminating zero is written. */
  lemma EmptySource()
    ensures Utf8ToUtf16(Some([7]), []) == Converted(0, Some([7]))
    ensures Utf16ToUtf8(None, []) == Converted(0, None)
  {
  }

  /**
   * Truncated output need not be a prefix of the full output. U+0800, 'A',
   * NUL take 3 + 1 + 1 bytes, but with a two-byte destination U+0800 does
   * not fit and contributes nothing, after which 'A' and the NUL are written
   * at the same offset.
   */
  lemma TruncatedOutputIsNotAPrefix()
    ensures Utf32ToUtf8(None, [0x800, 0x41, 0]) == Converted(5, None)
    ensures Utf32ToUtf8(Some([0, 0]), [0x800, 0x41, 0]) == Converted(2, Some([0x41, 0x00]))
  {
    var src := Buf32([0x800, 0x41, 0]);
    MeasureThreeUnits(src);
    assert Emit(Writing(Buf8([0, 0])), 0, 0x800) == Outcome(0, Writing(Buf8([0, 0])));
    WriteANulIntoTwo(src);
  }

  /**
   * Measuring a three-unit UTF-32 source whose last unit is zero and whose
   * first scalar takes three UTF-8 bytes and second one. The requires
   * describe the source of UnencodableScalarIsDropped.
   */
  lemma MeasureThreeUnits(src: Buffer)
    requires src.Buf32? && |src.u32| == 3 && src.u32[2] == 0
    requires Dispatch.Width(Utf8, src.u32[0]) == 3 && src.u32[1] == 0x41
    ensures Run(Measuring(Utf8), src, 0, 0) == Outcome(5, Measuring(Utf8))
  {
    var m := Measuring(Utf8);
    assert Dispatch.DecodeGen(src, 0, 3).next == 1;
    assert Dispatch.DecodeGen(src, 1, 3) == Decoded(0x41, 2);
    assert Dispatch.DecodeGen(src, 2, 3) == Decoded(0, 3);
    assert Run(m, src, 0, 0) == Run(m, src, 1, 3);
    assert Run(m, src, 1, 3) == Run(m, src, 2, 4);
  }

  /**
   * Writing a UTF-32 source whose first scalar the two-byte UTF-8
   * destination rejects, followed by 'A' and NUL. The rejection in the
   * requires is a fact about the concrete first scalar; the caller proves them so that each proof stays small.
   */
  lemma WriteANulIntoTwo(src: Buffer)
    requires src.Buf32? && |src.u32| == 3 && src.u32[1] == 0x41 && src.u32[2] == 0
    requires Emit(Writing(Buf8([0, 0])), 0, src.u32[0]) == Outcome(0, Writing(Buf8([0, 0])))
    requires src.u32[0] != 0
    ensures Run(Writing(Buf8([0, 0])), src, 0, 0) == Outcome(2, Writing(Buf8([0x41, 0])))
  {
    var w0 := Writing(Buf8([0, 0]));
    var w1 := Writing(Buf8([0x41, 0]));
    assert Dispatch.DecodeGen(src, 0, 3) == Decoded(src.u32[0], 1);
    assert Dispatch.DecodeGen(src, 1, 3) == Decoded(0x41, 2);
    assert Dispatch.DecodeGen(src, 2, 3) == Decoded(0, 3);
    assert Dispatch.EncodeGen(Dispatch.Into(Buf8([0, 0]), 0, 2), 0x41) == Dispatch.Emitted(1, Dispatch.Into(Buf8([0x41, 0]), 0, 2));
    assert Dispatch.EncodeGen(Dispatch.Into(Buf8([0x41, 0]), 1, 2), 0) == Dispatch.Emitted(1, Dispatch.Into(Buf8([0x41, 0]), 1, 2));
    assert Emit(w0, 0, 0x41) == Outcome(1, w1);
    assert Emit(w1, 1, 0) == Outcome(2, w1);
    assert Run(w0, src, 0, 0) == Run(w0, src, 1, 0);
    assert Run(w0, src, 1, 0) == Run(w1, src, 2, 1);
  }

  /**
   * A scalar the destination encoding cannot represent is dropped without a
   * replacement: a UTF-32 surrogate code point vanishes from UTF-16 output
   * but is written to UTF-8 output as a three-byte form.
   */
  lemma UnencodableScalarIsDropped()
    ensures Utf32ToUtf16(Some([0, 0, 0]), [0xD800, 0x41, 0]) == Converted(2, Some([0x41, 0x00, 0]))
    ensures Utf32ToUtf8(None, [0xD800, 0x41, 0]) == Converted(5, None)
  {
    var src := Buf32([0xD800, 0x41, 0]);
    MeasureThreeUnits(src);
    assert Emit(Writing(Buf16([0, 0, 0])), 0, 0xD800) == Outcome(0, Writing(Buf16([0, 0, 0])));
    WriteANulIntoThree(src);
  }

  /**
   * Writing a UTF-32 source whose first scalar the three-unit UTF-16
   * destination rejects, followed by 'A' and NUL. The rejection in the
   * requires is a fact about the concrete first scalar; the caller proves them so that each proof stays small.
   */
  lemma WriteANulIntoThree(src: Buffer)
    requires src.Buf32? && |src.u32| == 3 && src.u32[1] == 0x41 && src.u32[2] == 0
    requires Emit(Writing(Buf16([0, 0, 0])), 0, src.u32[0]) == Outcome(0, Writing(Buf16([0, 0, 0])))
    requires src.u32[0] != 0
    ensures Run(Writing(Buf16([0, 0, 0])), src, 0, 0) == Outcome(2, Writing(Buf16([0x41, 0, 0])))
  {
    var w0 := Writing(Buf16([0, 0, 0]));
    var w1 := Writing(Buf16([0x41, 0, 0]));
    assert Dispatch.DecodeGen(src, 0, 3) == Decoded(src.u32[0], 1);
    assert Dispatch.DecodeGen(src, 1, 3) == Decoded(0x41, 2);
    assert Dispatch.DecodeGen(src, 2, 3) == Decoded(0, 3);
    assert Dispatch.EncodeGen(Dispatch.Into(Buf16([0, 0, 0]), 0, 3), 0x41) == Dispatch.Emitted(1, Dispatch.Into(Buf16([0x41, 0, 0]), 0, 3));
    assert Dispatch.EncodeGen(Dispatch.Into(Buf16([0x41, 0, 0]), 1, 3), 0) == Dispatch.Emitted(1, Dispatch.Into(Buf16([0x41, 0, 0]), 1, 3));
    assert Emit(w0, 0, 0x41) == Outcome(1, w1);
    assert Emit(w1, 1, 0) == Outcome(2, w1);
    assert Run(w0, src, 0, 0) == Run(w0, src, 1, 0);
    assert Run(w0, src, 1, 0) == Run(w1, src, 2, 1);
  }
}
