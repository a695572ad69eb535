# frog_utf transcoder, modelled in Dafny

This project models `frog_utf.h`, a single-header C library that converts
strings between UTF-8, UTF-16 and UTF-32. It has four layers:

- **Leading-zero count** (`Bits`). `frog_utf_lzcnt` and the lead-byte length
  derived from it are modelled through the portable shift-and-count branch.
- **String length** (`Strlen`). The three `frog_strlen_*` scanners count the
  units before the first zero.
- **Single-scalar decoders and encoders** (`Utf8`, `Utf16`, `Utf32`, sharing
  the vocabulary in `Units`).
  - Each decoder reads one scalar from a non-empty view `[begin, end)` of a
    unit sequence. It returns the scalar and the index after it, and
    substitutes U+FFFD for malformed input exactly where the C code does.
  - Each encoder works on a `Target`. `Measure` stands for the null
    destination and only counts. `Write(units, begin, end)` stands for a
    writable view: the encoder stores the scalar's units at `begin` when
    they fit, and otherwise reports 0 and stores nothing.
- **Width dispatch and the string driver** (`Dispatch`, `Transcode`).
  - `frog_decode_gen` and `frog_encode_gen` dispatch on the unit width.
    Here the width becomes a closed `Encoding` and a tagged `Buffer`.
  - `frog_str_gen_to_gen` is modelled twice: as the recursive function
    `Run`, and as the `while` loop `Convert`. The loop is proved to compute
    the same result.
  - The six `frog_str_*_to_*` entry points take `Option<seq<_>>`
    destinations, where `None` is the null destination.

A C pointer is an index into a sequence. Code units are `bv8`, `bv16` and
`bv32`, so the bit manipulation is the C code's, at the C code's widths.

The main properties proved are these:

- **Round trips.** Encoding then decoding gives the scalar back, and
  consumes exactly the units written. This holds for every UTF-8 code point
  below 0x200000 (the four-byte form's reach), for every Unicode scalar value
  in UTF-16, and for every 32-bit value in UTF-32. Each UTF-8 form is also shown
  to have the lead and continuation bit layout of section 3 of RFC 3629
  (though, unlike the RFC, the forms include surrogates and code points up
  to 0x1FFFFF), and each UTF-16 form to be a non-surrogate unit or a
  surrogate pair as in sections 2.1 and 2.2 of RFC 2781.
- **Two encoder modes.** Measuring and writing agree whenever there is room.
  A write that does not fit changes nothing.
- **Driver against a reference definition.** The driver is compared with an
  independent reference:
  - `Scalars` is the list of scalars the loop decodes: up to the end of the
    source, or up to and including the first zero.
  - Measuring returns the sum of their widths.
  - Writing into a buffer with room stores exactly their forms, one after
    another, and never changes a unit past the returned total.
- **Edge cases, proved on concrete inputs:**
  - stopping after an embedded NUL;
  - an empty source;
  - a scalar that the destination encoding rejects being dropped without
    replacement;
  - truncated output that is not a prefix of the full output.

`Utf16.IsHighSurrogate` covers [0xD800, 0xDC00), the range the decoder
tests at frog_utf.h:265. The UTF-16 encoder's comment calls the range
[0xD800, 0xE000) "private use code points"; those are the surrogate code
points, and the model names them so.

## Model

| member | source | states |
|---|---|---|
| `Bits.Lzcnt` | frog_utf.h:146-165 | The result is 32 for zero. Otherwise it is the `r` for which bit 31 - r is the highest set bit, that is 2^(31-r) <= n < 2^(32-r). |
| `Bits.LeadLength` | frog_utf.h:215-217 | The sequence length read from a lead byte is its number of leading one bits: 0 below 0x80, 1 for continuation bytes, 2/3/4 for the 0xC0/0xE0/0xF0 leads, 5 for 0xF8..0xFB, 6 for 0xFC and 0xFD, 7 for 0xFE, and 32 for 0xFF. |
| `Strlen.Strlen` | frog_utf.h:169-188 | For a string that contains a terminator, the length is the index of the first terminator: that unit is zero and every earlier unit is nonzero. |
| `Strlen.StrlenUtf8` | frog_utf.h:169-174 | The returned length is the index of the first zero byte. |
| `Strlen.StrlenUtf16` | frog_utf.h:176-181 | The returned length is the index of the first zero 16-bit unit. |
| `Strlen.StrlenUtf32` | frog_utf.h:183-188 | The returned length is the index of the first zero 32-bit unit. |
| `Units.Store` | frog_utf.h:429-437 | Measuring reports the form's length. Writing stores the form at the view's begin and reports its length exactly when it fits. Otherwise it reports 0 and the destination is unchanged. Only the reported units inside the view can change. |
| `Utf8.SkipContinuation` | frog_utf.h:207-208 | The skipped run lies within the view and consists of continuation bytes only. It ends at the view's end or at a byte that is not a continuation byte. |
| `Utf8.Decode` | frog_utf.h:190-251 | The decoder always advances, never past the view's end, and yields a scalar below 0x200000. ASCII is its own scalar. A stray continuation byte yields U+FFFD and skips its whole run of continuation bytes. A sequence cut off by the view yields U+FFFD and consumes the view. A lead byte of 0xF8 or more yields U+FFFD and skips the length it announces. |
| `Utf8.Width` | frog_utf.h:307-365 | The encoder's return value for a code point: at most 4, and nonzero exactly below 0x200000; the per-range values follow with `Utf8.FormIsShortest`. |
| `Utf8.Form` | frog_utf.h:307-359 | The bytes of a code point below 0x200000 number exactly as many as the encoder's width table gives. |
| `Utf8.Encode` | frog_utf.h:302-366 | The result depends on the mode. Measuring reports the width, or 0 at 0x200000 and above. Writing reports the width and stores the code point's form when it fits, and otherwise reports 0 and changes nothing. Only the reported units inside the view change. |
| `Utf8.TwoByteBits` | frog_utf.h:326-327 | The two-byte form of U+0080..U+07FF has a 110xxxxx lead and a continuation byte, and recombining their payload bits gives the code point. |
| `Utf8.ThreeByteBits` | frog_utf.h:339-341 | The three-byte form of U+0800..U+FFFF has a 1110xxxx lead and two continuation bytes, and recombining their payload bits gives the code point. |
| `Utf8.FourByteBits` | frog_utf.h:353-356 | The four-byte form of 0x10000..0x1FFFFF has an 11110xxx lead and three continuation bytes, and recombining their payload bits gives the code point. |
| `Utf8.FormIsWellFormed` | frog_utf.h:319-359 | Every form is either a single byte below 0x80, or a lead byte whose leading one bits count the form's bytes followed by continuation bytes. |
| `Utf8.FormIsShortest` | frog_utf.h:307-359 | No form is overlong, so each code point gets the fewest bytes: a two-byte lead is at least 0xC2, and a three- or four-byte form with the smallest lead has a second byte of at least 0xA0 or 0x90 (section 4 of RFC 3629). With FormIsWellFormed and DecodeForm this fixes the widths 1, 2, 3 and 4 of the ranges at lines 307, 319, 332 and 346. |
| `Utf8.DecodeTwo` | frog_utf.h:225-229 | With room in the view, a 0xC0..0xDF lead combines its low 5 bits with the next byte's low 6 bits and advances 2. |
| `Utf8.DecodeThree` | frog_utf.h:230-235 | With room in the view, a 0xE0..0xEF lead combines its low 4 bits with two 6-bit payloads and advances 3. |
| `Utf8.DecodeFour` | frog_utf.h:236-242 | With room in the view, a 0xF0..0xF7 lead combines its low 3 bits with three 6-bit payloads and advances 4. |
| `Utf8.DecodeForm` | frog_utf.h:197-249 | The form of any code point below 0x200000 decodes back to it and consumes exactly the form, wherever it sits in a view and whatever follows it. |
| `Utf8.DecodeFormOne` | frog_utf.h:197-201 | A byte holding an ASCII code point decodes to it and advances 1. |
| `Utf8.DecodeFormTwo` | frog_utf.h:225-229 | The two-byte form found in a view decodes to its code point and advances 2. |
| `Utf8.DecodeFormThree` | frog_utf.h:230-235 | The three-byte form found in a view decodes to its code point and advances 3. |
| `Utf8.DecodeFormFour` | frog_utf.h:236-242 | The four-byte form found in a view decodes to its code point and advances 4. |
| `Utf8.RoundTrip` | frog_utf.h:302-366 | For every code point below 0x200000, writing with room stores its width in bytes, and decoding from the view's begin gives the code point back and stops right after those bytes. |
| `Utf8.MeasureMatchesWrite` | frog_utf.h:307-365 | Measuring reports what writing reports whenever the view has room. With less room, writing reports 0 and changes nothing. |
| `Utf8.SkipContinuationLocal` | frog_utf.h:207-208 | The continuation-run skip depends only on the bytes inside the view. |
| `Utf8.DecodeReadsOnlyView` | frog_utf.h:190-251 | The decoder reads nothing outside its view: decoding a view in place is decoding the view cut out on its own, shifted by its begin. |
| `Utf8.StrayRunIsOneReplacement` | frog_utf.h:203-211 | A run of stray continuation bytes yields one U+FFFD and stops at the first non-continuation byte. |
| `Utf8.LeadByteFF` | frog_utf.h:217-249 | Byte 0xFF announces 32 bytes. It yields U+FFFD and consumes the rest of a shorter view, or exactly 32 bytes of a long enough one. |
| `Utf8.OverlongAccepted` | frog_utf.h:225-229 | Overlong forms are not rejected: 0xC0 0x80 decodes to U+0000. |
| `Utf8.ContinuationNotChecked` | frog_utf.h:225-229 | The bytes after a lead byte are not checked: 0xC3 followed by 'A' decodes to U+00C1 and consumes the 'A'. |
| `Utf8.BeyondScalarsEncoded` | frog_utf.h:332-365 | Surrogate code points and code points up to 0x1FFFFF are encoded (0xD800 in 3 bytes, 0x1FFFFF in 4), and 0x200000 is rejected. |
| `Utf16.Decode` | frog_utf.h:253-289 | The decoder advances one or two units within the view and always yields a Unicode scalar value. A non-surrogate is its own scalar. A stray low surrogate yields U+FFFD. A high surrogate last in the view yields U+FFFD and consumes it. Otherwise a high surrogate combines with the next unit, whatever it is. |
| `Utf16.Combine` | frog_utf.h:273-275 | Any two units combine to a supplementary scalar in [0x10000, 0x110000) whose offset from 0x10000 carries the low ten bits of the first unit above the low ten bits of the second. |
| `Utf16.Width` | frog_utf.h:373-421 | The width is at most 2, nonzero exactly for Unicode scalar values, and is 2 exactly for supplementary ones. |
| `Utf16.HighHalf` | frog_utf.h:410-411 | The first unit of a supplementary scalar is a high surrogate. |
| `Utf16.LowHalf` | frog_utf.h:410-412 | The second unit of a supplementary scalar is a low surrogate. |
| `Utf16.Form` | frog_utf.h:373-416 | The units of a Unicode scalar value number exactly as many as its width. |
| `Utf16.Encode` | frog_utf.h:368-422 | The result depends on the mode. Measuring reports the width, or 0 for surrogates and above 0x10FFFF. Writing reports the width and stores the scalar's form when it fits, and otherwise reports 0 and changes nothing. Only the reported units inside the view change. |
| `Utf16.PairForm` | frog_utf.h:410-412 | The two surrogates written for a supplementary scalar recombine to it. |
| `Utf16.NarrowWiden` | frog_utf.h:380 | Storing a scalar below 0x10000 into a 16-bit unit loses nothing. |
| `Utf16.DecodeForm` | frog_utf.h:258-288 | The form of any Unicode scalar value decodes back to it and consumes exactly the form, wherever it sits in a view and whatever follows it. |
| `Utf16.FormIsWellFormed` | frog_utf.h:373-416 | A one-unit form holds the scalar and is not a surrogate. A two-unit form is a high surrogate followed by a low surrogate. |
| `Utf16.UnitShape` | frog_utf.h:373-402 | A scalar value below 0x10000 fits in one unit that is not a surrogate. |
| `Utf16.DecodeUnit` | frog_utf.h:260-264 | A non-surrogate unit decodes to itself and advances 1. |
| `Utf16.DecodePair` | frog_utf.h:265-277 | The surrogate pair of a supplementary scalar decodes to it and advances 2. |
| `Utf16.RoundTrip` | frog_utf.h:368-422 | For every Unicode scalar value, writing with room stores its width in units, and decoding from the view's begin gives the scalar back and stops right after those units. |
| `Utf16.MeasureMatchesWrite` | frog_utf.h:373-421 | Measuring reports what writing reports whenever the view has room. With less room, writing reports 0 and changes nothing. |
| `Utf16.SplitCombine` | frog_utf.h:273-275 | Combining a high and a low surrogate and splitting the result gives back the two surrogates. |
| `Utf16.PairDecodesAndReencodes` | frog_utf.h:265-277 | A well-formed surrogate pair decodes to a scalar that re-encodes to that same pair. |
| `Utf16.HighSurrogateTakesAnyUnit` | frog_utf.h:273-276 | A high surrogate followed by 'A' decodes to 0x10041 and consumes the 'A'. |
| `Utf16.LoneHighSurrogateAtEnd` | frog_utf.h:267-271 | A high surrogate in the last position of the view yields U+FFFD and consumes it. |
| `Utf16.SurrogateRejected` | frog_utf.h:385-390 | 0xD800 is rejected with 0 when measuring and when writing. |
| `Utf32.Decode` | frog_utf.h:291-300 | The decoder advances exactly one unit and yields that unit unchanged, whatever its value: nothing is validated. |
| `Utf32.Encode` | frog_utf.h:424-438 | Measuring reports 1. Writing reports 1 and stores the value when the view is not full, and otherwise reports 0 and changes nothing. |
| `Utf32.RoundTrip` | frog_utf.h:424-438 | Every 32-bit value written with room decodes back to itself. |
| `Utf32.DecodeThenEncode` | frog_utf.h:291-300 | Any decoded unit re-encodes to that same unit. |
| `Dispatch.DecodeGen` | frog_utf.h:441-459 | The generic decoder advances within the view. From UTF-8 it yields a code point below 0x200000, and from UTF-16 a Unicode scalar value. |
| `Dispatch.Width` | frog_utf.h:461-479 | A width is at most 4, and is 0 exactly when UTF-8 gets a code point of 0x200000 or more, or UTF-16 gets a non-scalar. |
| `Dispatch.EncodeGen` | frog_utf.h:461-479 | The generic encoder measures the width in the null mode. In the writing mode it reports the width when it fits and 0 otherwise, keeps the view, and changes no unit outside the reported ones. |
| `Dispatch.Form` | frog_utf.h:461-479 | The generic form is in the requested encoding and its length is the scalar's width there. |
| `Dispatch.EncodeGenWrites` | frog_utf.h:461-479 | With room, the generic encoder reports the width and stores the scalar's form at the view's begin. |
| `Dispatch.Utf8Writes` | frog_utf.h:467-468 | With room, the UTF-8 arm of the generic encoder stores the code point's form at the view's begin. |
| `Dispatch.Utf16Writes` | frog_utf.h:469-470 | With room, the UTF-16 arm of the generic encoder stores the scalar's form at the view's begin. |
| `Transcode.Emit` | frog_utf.h:500-503 | One encode call of the loop. Measuring adds the width. Writing adds the width and stores the form when it fits before the buffer's end, and otherwise adds 0 and leaves everything unchanged. Units outside the added ones never change. |
| `Transcode.Run` | frog_utf.h:494-507 | The loop never lets the total exceed the destination's length, keeps the destination's encoding and length, and changes no unit outside those it adds from the starting total. |
| `Transcode.StrGenToGen` | frog_utf.h:481-510 | Measuring returns the sum of the widths of the scalars decoded up to the end or the first zero. Writing never returns more than the destination holds, and leaves every unit past the returned total unchanged. When the measured total fits, writing returns it, and the destination up to it holds exactly the forms of those scalars in order. |
| `Transcode.Scalars` | frog_utf.h:494-507 | The loop decodes at most one scalar per source unit and none from an empty source, and no scalar other than the last is zero. |
| `Transcode.Forms` | frog_utf.h:494-507 | The concatenated forms are in the destination encoding and as long as the sum of the widths. |
| `Transcode.MeasuredTotal` | frog_utf.h:494-507 | Measuring from any source index adds exactly the widths of the scalars decoded from there. |
| `Transcode.WriteWithRoom` | frog_utf.h:494-507 | With room for the measured total, writing from any source index reports that total and stores exactly the forms of the decoded scalars from the running total on. |
| `Transcode.WriteLast` | frog_utf.h:498-506 | When a zero is decoded, the loop writes its form and ends, having written exactly that form. |
| `Transcode.WriteNext` | frog_utf.h:498-501 | After a nonzero scalar is written with room, room for the rest of the run remains. |
| `Transcode.WriteStep` | frog_utf.h:494-507 | Writing a nonzero scalar followed by the rest of the run stores that scalar's form followed by the forms of the rest. |
| `Transcode.EmitWrites` | frog_utf.h:500-501 | With room, one writing encode in the loop adds the width and stores the form at the running total. |
| `Transcode.Convert` | frog_utf.h:489-509 | The `while` loop with its break computes the same result as the recursive definition, and performs one decode per scalar in the reference list, which is at most one per source unit. |
| `Transcode.Utf8ToUtf16` | frog_utf.h:512-519 | The null destination returns the measured UTF-16 length. A buffer keeps its length, is never overrun, and keeps every unit from the returned length on. With room, the buffer receives exactly the UTF-16 forms of the decoded scalars. |
| `Transcode.Utf8ToUtf32` | frog_utf.h:521-528 | The null destination returns the measured UTF-32 length. A buffer keeps its length, is never overrun, and keeps every unit from the returned length on. With room, the buffer receives exactly the decoded scalars. |
| `Transcode.Utf16ToUtf8` | frog_utf.h:530-537 | The null destination returns the measured UTF-8 length. A buffer keeps its length, is never overrun, and keeps every unit from the returned length on. With room, the buffer receives exactly the UTF-8 forms of the decoded scalars. |
| `Transcode.Utf16ToUtf32` | frog_utf.h:539-546 | The null destination returns the measured UTF-32 length. A buffer keeps its length, is never overrun, and keeps every unit from the returned length on. With room, the buffer receives exactly the decoded scalars. |
| `Transcode.Utf32ToUtf8` | frog_utf.h:548-555 | The null destination returns the measured UTF-8 length. A buffer keeps its length, is never overrun, and keeps every unit from the returned length on. With room, the buffer receives exactly the UTF-8 forms of the decoded values. |
| `Transcode.Utf32ToUtf16` | frog_utf.h:557-564 | The null destination returns the measured UTF-16 length. A buffer keeps its length, is never overrun, and keeps every unit from the returned length on. With room, the buffer receives exactly the UTF-16 forms of the decoded values. |
| `Transcode.StopsAfterZero` | frog_utf.h:505-506 | Of 'A', NUL, 'B' only 'A' and the NUL are converted, in both modes. The rest of the destination is untouched. |
| `Transcode.MeasureANul` | frog_utf.h:503-506 | Measuring 'A', NUL, 'B' into UTF-16 stops after the NUL with total 2. |
| `Transcode.WriteANul` | frog_utf.h:501-506 | Writing 'A', NUL, 'B' into a four-unit UTF-16 buffer stores 'A' and NUL and leaves the other units alone. |
| `Transcode.EmptySource` | frog_utf.h:494 | An empty source converts to nothing. No terminating zero is written. |
| `Transcode.TruncatedOutputIsNotAPrefix` | frog_utf.h:501 | U+0800, 'A', NUL measure 5 UTF-8 bytes. A two-byte destination drops U+0800 and then receives 'A' and NUL, which is not a prefix of the full output. |
| `Transcode.MeasureThreeUnits` | frog_utf.h:503 | Measuring a three-byte code point, 'A' and NUL into UTF-8 totals 5. |
| `Transcode.WriteANulIntoTwo` | frog_utf.h:501 | After a code point that does not fit is dropped, 'A' and NUL are written at the same offset. |
| `Transcode.UnencodableScalarIsDropped` | frog_utf.h:498-503 | A UTF-32 surrogate code point vanishes from UTF-16 output without a replacement, while UTF-8 measures it as 3 bytes. |
| `Transcode.WriteANulIntoThree` | frog_utf.h:501 | After a value the UTF-16 encoder rejects, 'A' and NUL are written from offset 0. |

## Left out

- `frog_utf_lzcnt`'s intrinsic branches (frog_utf.h:148-151) are not modelled. `_lzcnt_u32` and `__builtin_clz` (guarded by `n != 0`) compute the same function as the portable branch, which `Bits.Lzcnt` models.
- The configuration macros and prototypes (frog_utf.h:1-143) are not modelled. They are inlining, export and likely/unlikely hints that change no behaviour.
- The unreachable arms of `frog_decode_gen` and `frog_encode_gen` (frog_utf.h:453-458, 473-478) are not modelled. A tagged `Buffer` leaves no fourth width, so no other width can be selected.
- Undefined behaviour from pointers is not modelled.
  - Every decoder reads `begin[0]` unconditionally, so the decoders require a non-empty view.
  - `frog_strlen_*` read until a zero, so they require one to be present.
  - Pointer comparisons such as `begin + length > end` are integer comparisons on indices, including when `begin + length` would point past the array.
- Overlapping source and destination buffers are not modelled. The source and the destination are separate values, whereas in C the loop would decode units it had just written.
- `src_length` and `dst_length` are the lengths of the given sequences. A caller passing a shorter length than its buffer corresponds to passing the prefix; the units past it are never touched.
- `size_t` overflow of the running total and of pointer arithmetic is not modelled. Totals are unbounded naturals; the total is at most four units per source unit, so it cannot wrap for buffers that exist.
- Threads and memory allocation are not modelled. The C code has no shared state and never allocates.
- Utf8.Form: its contract states only the length. Well-formedness is stated by `Utf8.FormIsWellFormed`, and decoding by `Utf8.DecodeForm`.
- Utf16.Form: its contract states only the length. Well-formedness is stated by `Utf16.FormIsWellFormed`, and decoding by `Utf16.DecodeForm`.
- Transcode.Utf8ToUtf16: when the output does not fit, the contract states the length bound and that units from the returned length on are unchanged, but not which units before it were written; `Transcode.TruncatedOutputIsNotAPrefix` shows a truncated case.
- Transcode.Utf8ToUtf32: as for `Transcode.Utf8ToUtf16`, truncated output is bounded and its tail unchanged, but the units it did write are not described.
- Transcode.Utf16ToUtf8: as for `Transcode.Utf8ToUtf16`, truncated output is bounded and its tail unchanged, but the units it did write are not described.
- Transcode.Utf16ToUtf32: as for `Transcode.Utf8ToUtf16`, truncated output is bounded and its tail unchanged, but the units it did write are not described.
- Transcode.Utf32ToUtf8: as for `Transcode.Utf8ToUtf16`, truncated output is bounded and its tail unchanged, but the units it did write are not described.
- Transcode.Utf32ToUtf16: as for `Transcode.Utf8ToUtf16`, truncated output is bounded and its tail unchanged, but the units it did write are not described.
