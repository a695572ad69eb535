/**
 * Shared vocabulary of the transcoder: the three encodings, code-unit
 * buffers tagged with their encoding, the result of decoding one scalar,
 * and the two-mode destination of an encoder (measure only, or write into a
 * bounded view of a buffer).
 *
 * A C pointer into a buffer is modelled as an index into a sequence; a view
 * `[begin, end)` is a pair of indices into the same sequence.
 */
module Units {

  /** U+FFFD, the scalar substituted for input that cannot be decoded. */
  const Replacement: bv32 := 0xFFFD

  datatype Option<T> = None | Some(value: T)

  /** A Unicode scalar value: at most U+10FFFF and not a surrogate code point. */
  predicate IsScalarValue(ch: bv32) {
    ch < 0x110000 && !(0xD800 <= ch < 0xE000)
  }

  /** The three encodings; the C code selects them by code-unit byte width. */
  datatype Encoding = Utf8 | Utf16 | Utf32

  /**
   * A run of code units whose element type matches its encoding; this
   * replaces the C code's untyped pointer plus byte width.
   */
  datatype Buffer = Buf8(u8: seq<bv8>) | Buf16(u16: seq<bv16>) | Buf32(u32: seq<bv32>) {
    function Encoding(): Encoding {
      match this
      case Buf8(_) => Utf8
      case Buf16(_) => Utf16
      case Buf32(_) => Utf32
    }

    function Length(): nat {
      match this
      case Buf8(s) => |s|
      case Buf16(s) => |s|
      case Buf32(s) => |s|
    }

    /** The code unit at index `k`, widened to 32 bits. */
    function At(k: nat): bv32
      requires k < Length()
    {
      match this
      case Buf8(s) => s[k] as bv32
      case Buf16(s) => s[k] as bv32
      case Buf32(s) => s[k]
    }
  }

  /** The units of `b` in `[lo, hi)`, as a buffer of the same encoding. */
  function Slice(b: Buffer, lo: nat, hi: nat): (r: Buffer)
    requires lo <= hi <= b.Length()
    ensures r.Encoding() == b.Encoding()
    ensures r.Length() == hi - lo
    ensures forall k :: 0 <= k < hi - lo ==> r.At(k) == b.At(lo + k)
  {
    match b
    case Buf8(s) => Buf8(s[lo..hi])
    case Buf16(s) => Buf16(s[lo..hi])
    case Buf32(s) => Buf32(s[lo..hi])
  }

  /** An empty buffer of encoding `e`. */
  function Empty(e: Encoding): (r: Buffer)
    ensures r.Encoding() == e && r.Length() == 0
  {
    match e
    case Utf8 => Buf8([])
    case Utf16 => Buf16([])
    case Utf32 => Buf32([])
  }

  /** Concatenation of two buffers of the same encoding. */
  function Concat(a: Buffer, b: Buffer): (r: Buffer)
    requires a.Encoding() == b.Encoding()
    ensures r.Encoding() == a.Encoding()
    ensures r.Length() == a.Length() + b.Length()
    ensures forall k :: 0 <= k < a.Length() ==> r.At(k) == a.At(k)
    ensures forall k :: 0 <= k < b.Length() ==> r.At(a.Length() + k) == b.At(k)
  {
    match a
    case Buf8(s) => Buf8(s + b.u8)
    case Buf16(s) => Buf16(s + b.u16)
    case Buf32(s) => Buf32(s + b.u32)
  }

  /** Two buffers hold the same units. */
  predicate SameUnits(a: Buffer, b: Buffer) {
    && a.Encoding() == b.Encoding()
    && a.Length() == b.Length()
    && forall k :: 0 <= k < a.Length() ==> a.At(k) == b.At(k)
  }

  /** Buffers are determined by their encoding and their units. */
  lemma SameUnitsEqual(a: Buffer, b: Buffer)
    requires SameUnits(a, b)
    ensures a == b
  {
    match a
    case Buf8(s) =>
      var t := b.u8;
      forall k | 0 <= k < |s| ensures s[k] == t[k] {
        assert a.At(k) == b.At(k);
      }
      assert s == t;
    case Buf16(s) =>
      var t := b.u16;
      forall k | 0 <= k < |s| ensures s[k] == t[k] {
        assert a.At(k) == b.At(k);
      }
      assert s == t;
    case Buf32(s) =>
      var t := b.u32;
      forall k | 0 <= k < |s| ensures s[k] == t[k] {
        assert a.At(k) == b.At(k);
      }
      assert s == t;
  }

  /** Two buffers that agree on every unit from `lo` on have equal tails. */
  lemma TailsEqual(a: Buffer, b: Buffer, lo: nat)
    requires a.Encoding() == b.Encoding() && a.Length() == b.Length() && lo <= a.Length()
    requires forall k :: lo <= k < a.Length() ==> b.At(k) == a.At(k)
    ensures a.Buf8? ==> a.u8[lo..] == b.u8[lo..]
    ensures a.Buf16? ==> a.u16[lo..] == b.u16[lo..]
    ensures a.Buf32? ==> a.u32[lo..] == b.u32[lo..]
  {
    SameUnitsEqual(Slice(a, lo, a.Length()), Slice(b, lo, b.Length()));
  }

  /** The result of decoding one scalar: the scalar and the index after it. */
  datatype Decoded = Decoded(scalar: bv32, next: nat)

  /**
   * The destination of a single-scalar encoder: `Measure` is the C code's
   * null destination; `Write` is the writable view `[begin, end)` of
   * `units`.
   */
  datatype Target<T> = Measure | Write(units: seq<T>, begin: nat, end: nat) {
    predicate Valid() {
      Write? ==> begin <= end <= |units|
    }
  }

  /** The result of encoding one scalar: the unit count and the destination after the call. */
  datatype Encoded<T> = Encoded(count: nat, target: Target<T>)

  /**
   * `after` differs from `before` at most in the `count` units starting at
   * the view's begin, all of which lie inside the view; a measuring target
   * stays measuring.
   */
  predicate WritesWithin<T(==)>(before: Target<T>, after: Target<T>, count: nat) {
    match before
    case Measure => after == Measure
    case Write(units, begin, end) =>
      && after.Write?
      && after.begin == begin && after.end == end
      && |after.units| == |units|
      && begin + count <= end
      && forall k :: 0 <= k < |units| && !(begin <= k < begin + count) ==> after.units[k] == units[k]
  }

  /**
   * The capacity check and store shared by every encoder once it has chosen
   * the units `form` for its scalar: measuring reports `|form|`; writing
   * stores `form` at the view's begin when it fits and otherwise reports 0
   * and stores nothing.
   */
  function Store<T(==)>(t: Target<T>, form: seq<T>): (r: Encoded<T>)
    requires t.Valid()
    ensures r.target.Valid()
    ensures WritesWithin(t, r.target, r.count)
    ensures r.count == 0 || r.count == |form|
    ensures r.count == 0 ==> r.target == t
    ensures t.Measure? ==> r.count == |form|
    ensures t.Write? ==> (r.count == |form| <==> t.begin + |form| <= t.end)
    ensures t.Write? && r.count == |form| ==> r.target.units[t.begin..t.begin + |form|] == form
  {
    match t
    case Measure => Encoded(|form|, Measure)
    case Write(units, begin, end) =>
      if begin + |form| > end then Encoded(0, t)
      else Encoded(|form|, Write(units[..begin] + form + units[begin + |form|..], begin, end))
  }
}
