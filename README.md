# LD2450 radar driver, modelled in Dafny

The LD2450 driver reads the HLK-LD2450 radar's serial byte stream. It keeps
the bytes in a 128-byte accumulation buffer. From that buffer it extracts
frames: the header `FD FC FB FA`, a little-endian payload length, then three
6-byte target records, each holding x, y and speed as little-endian int16.
It keeps the decoded targets in three fixed slots.

The model has four modules:

- `Ld2450Types` (`types.dfy`): the constants the header declares. These are
  3 slots and a 128-byte buffer. It also holds the `RadarTarget` record and
  its default value.
- `Ld2450Distance` (`distance.dfy`): the distance a record reports,
  `round(sqrt(x*x + y*y))`, computed exactly on integers.
- `Ld2450Frame` (`frame.dfy`): the wire format and the extraction loop of
  `read()`, written as functions on byte sequences. The lemmas about framing,
  decoding and resynchronisation live here.
- `Ld2450Driver` (`driver.dfy`): the `LD2450` class.
  - Fields: a `buffer` array of 128 bytes, its fill level `len`, a `targets`
    array of 3 slots, and a `bound` flag standing for `serial_ != nullptr`.
  - Members: at least one Dafny member per C++ member, with the same loops.
    The loops of `findHeaderIndex`, `decodeFrame` and `read` are split into
    helper methods (see "## Left out"). The members that scan or decode the
    buffer are proved against the functions of `Ld2450Frame`. The
    constructor, `Begin`, `ResetTargets` and `ShiftBuffer` state their
    effect on the arrays directly.

`read()` takes the bytes the stream can deliver now as a sequence
`available`. It returns the value the C++ returns, and also how many bytes
it took from `available`. It fills the buffer, then runs the extraction loop
`ExtractFrames`. Their combined contract is one call of the function
`Extract` on the filled buffer.

Four behaviours of the code worth noting:

- A frame that passes `decodeFrame`'s length checks overwrites all three
  slots even when it is rejected. For example, an all-zero payload resets
  them (`RejectedFrameOverwritesSlots`).
- A header buffered with fewer than six bytes is not kept until its length
  arrives. `expectedFrameSize()` returns 0, the first byte is dropped, and
  the rest of the partial frame goes with it (`ShortHeaderIsDiscarded`).
- A buffer of fewer than four bytes holds no header, so it is discarded
  whole (`FindHeader`, `ExtractNoHeader`).
- `read()` returns the valid count of the last frame it accepted, which need
  not be the number of valid slots it leaves. After the three-slot frame
  with two valid targets, the bytes `FD FC FB FA 00 00` form a frame that
  passes the length checks and is rejected. It resets every slot, and
  `read()` still returns 2 (`ResultOutlivesSlots`).

## Model

| member | source | states |
|---|---|---|
| Ld2450Types.DefaultTargetIsEmpty | lib/LD2450/LD2450.h:7-13 | the default record is invalid, has x = y = speed = 0 and distance 0 |
| Ld2450Distance.RoundSqrtIsRoundedRoot | lib/LD2450/LD2450.cpp:88-89 | the integer rounding of sqrt(n) lies within one half of the real root |
| Ld2450Distance.RoundSqrtUnique | lib/LD2450/LD2450.cpp:88-89 | any k within one half of sqrt(n) is the value RoundSqrt returns |
| Ld2450Distance.RoundedNorm | lib/LD2450/LD2450.cpp:88-89 | the distance of (x, y) lies within one half of sqrt(x*x + y*y) |
| Ld2450Types.RadarTarget.Distance | lib/LD2450/LD2450.cpp:88-89 | a record's distance is sqrt(x*x + y*y) rounded to the nearest integer |
| Ld2450Distance.RoundedNormIs | lib/LD2450/LD2450.cpp:88-89 | conversely, an integer within one half of sqrt(x*x + y*y) is the distance |
| Ld2450Distance.ScenarioDistances | lib/LD2450/LD2450.cpp:88-89 | (100, 50) is at distance 112, (-20, 30) at 36 and the origin at 0 |
| Ld2450Frame.FindHeaderFrom | lib/LD2450/LD2450.cpp:42-51 | the result is the first header position at or after i, or None when there is none from i on |
| Ld2450Frame.FindHeader | lib/LD2450/LD2450.cpp:40-53 | the result is the earliest i with s[i..i+4] = FD FC FB FA, and i + 4 does not exceed the length of s; None exactly when no header exists, which is always the case below 4 bytes |
| Ld2450Frame.FindHeaderIsEarliest | lib/LD2450/LD2450.cpp:42-50 | a header with none before it is the position the search reports |
| Ld2450Frame.LE16 | lib/LD2450/LD2450.cpp:57 | the little-endian length field is below 2^16 |
| Ld2450Frame.ToInt16 | lib/LD2450/LD2450.cpp:80-82 | the int16 cast is congruent to the unsigned pair value mod 2^16, and negative exactly when the high byte's top bit is set |
| Ld2450Frame.Int16RoundTrip | lib/LD2450/LD2450.cpp:80-82 | encoding an int16 as two little-endian bytes and decoding it gives the value back |
| Ld2450Frame.Int16BytesRoundTrip | lib/LD2450/LD2450.cpp:80-82 | decoding two bytes and re-encoding gives the bytes back |
| Ld2450Frame.ExpectedFrameSize | lib/LD2450/LD2450.cpp:55-61 | 0 exactly when fewer than 6 bytes are buffered or the length field exceeds 122; otherwise length + 6, which lies in [6, 128] |
| Ld2450Frame.DecodeTarget | lib/LD2450/LD2450.cpp:80-90 | the fields are int16, and the record is valid iff not all of x, y, speed are 0 |
| Ld2450Frame.DecodeEncodeTarget | lib/LD2450/LD2450.cpp:80-90 | the 6-byte encoding of (x, y, speed) decodes to exactly those fields, valid iff one is nonzero |
| Ld2450Frame.EncodeDecodeTarget | lib/LD2450/LD2450.cpp:80-82 | every 6-byte record is the encoding of the fields decoded from it |
| Ld2450Frame.ZeroRecordIsDefault | lib/LD2450/LD2450.cpp:90 | an all-zero record decodes to the default record |
| Ld2450Frame.CountValid | lib/LD2450/LD2450.cpp:130-133 | the count is at most the number of slots, and 0 exactly when no slot is valid |
| Ld2450Frame.CountValidOfThree | lib/LD2450/LD2450.cpp:130-133 | the count over three slots is the sum of their valid flags |
| Ld2450Frame.SlotAt | lib/LD2450/LD2450.cpp:73-92 | slot i is the record decoded from bytes 6+6i .. 12+6i when the frame's length covers them, and the default record otherwise |
| Ld2450Frame.SlotAtFields | lib/LD2450/LD2450.cpp:80-92 | a covered slot receives the record built from its x, y and speed fields, valid iff one is nonzero |
| Ld2450Frame.LengthAccepted | lib/LD2450/LD2450.cpp:64-67 | fails below 6 bytes; for a usable length field, passes exactly when the declared frame size fits within `length` |
| Ld2450Frame.FramesFromReadPassLengthChecks | lib/LD2450/LD2450.cpp:121-129 | a frame of the size expectedFrameSize() declares, taken from a buffer that holds it, always passes decodeFrame's length checks |
| Ld2450Frame.DecodeFrame | lib/LD2450/LD2450.cpp:63-98 | decoding always yields three slots |
| Ld2450Frame.DecodeFrameSlots | lib/LD2450/LD2450.cpp:73-94 | slot i comes from bytes 6+6i .. 12+6i when the frame covers them and is the default record otherwise; a frame failing the length checks changes no slot |
| Ld2450Frame.DecodeFrameVerdict | lib/LD2450/LD2450.cpp:96-98 | success iff the length checks pass, at least 18 payload bytes are present and some slot is valid |
| Ld2450Frame.DecodeFrameReadsPrefix | lib/LD2450/LD2450.cpp:63-98 | decoding depends only on the first `length` bytes of the frame |
| Ld2450Frame.RejectedFrameOverwritesSlots | lib/LD2450/LD2450.cpp:73-98 | a length-accepted frame with an all-zero payload is rejected and still resets all three slots |
| Ld2450Frame.ExtractStep | lib/LD2450/LD2450.cpp:111-137 | one pass either stops with an empty buffer or an incomplete frame at offset 0, or goes on with a strictly shorter suffix of the buffer; the result and the last accepted slots change only on an accepted frame, to that frame's slots and their valid count, which is in 1..3 |
| Ld2450Frame.CountValidOfDecoded | lib/LD2450/LD2450.cpp:129-134 | a frame decodeFrame accepts has one to three valid slots |
| Ld2450Frame.Extract | lib/LD2450/LD2450.cpp:110-138 | the extraction loop always leaves three slots |
| Ld2450Frame.ExtractNoHeader | lib/LD2450/LD2450.cpp:112-115 | with no header the buffer is emptied and nothing else changes |
| Ld2450Frame.ExtractSkipsNoise | lib/LD2450/LD2450.cpp:116-119 | with the header at h > 0 the loop goes on from the buffer minus its first h bytes |
| Ld2450Frame.ExtractDropsOneByte | lib/LD2450/LD2450.cpp:121-126 | with the header first and an unusable length the loop drops one byte and goes on |
| Ld2450Frame.ExtractWaits | lib/LD2450/LD2450.cpp:127 | an incomplete frame stops the loop with buffer, slots and result unchanged |
| Ld2450Frame.ExtractConsumesFrame | lib/LD2450/LD2450.cpp:129-137 | a complete frame is decoded into the slots and consumed, and the result becomes its valid count only when it is accepted |
| Ld2450Frame.ExtractRestIsSuffix | lib/LD2450/LD2450.cpp:110-138 | the loop only drops leading bytes: what remains is a suffix of the buffer |
| Ld2450Frame.ExtractExit | lib/LD2450/LD2450.cpp:110-138 | on exit the buffer is empty, or starts with a header whose declared frame is longer than what is buffered |
| Ld2450Frame.ExtractResult | lib/LD2450/LD2450.cpp:108-140 | with no frame accepted the result and the last accepted slots are unchanged; otherwise the result is the valid count of the slots the last accepted frame decoded, in 1..3 |
| Ld2450Frame.NoiseBeforeHeaderIsDropped | lib/LD2450/LD2450.cpp:111-119 | leading bytes in which no header starts (0xFD bytes included) are dropped in front of a header without other effect |
| Ld2450Frame.ShortHeaderIsDiscarded | lib/LD2450/LD2450.cpp:121-125 | a header buffered with fewer than 6 bytes leads to an empty buffer, with slots and result unchanged |
| Ld2450Frame.DecodeEncodedFrame | lib/LD2450/LD2450.cpp:63-98 | decodeFrame on an encoded 24-byte frame gives back the encoded records, and succeeds exactly when one of them is valid |
| Ld2450Frame.FrameRoundTrip | lib/LD2450/LD2450.cpp:110-138 | one encoded frame is consumed whole and leaves its records in the slots; the result is its valid count, or the earlier result when it has none |
| Ld2450Frame.ThreeSlotScenario | lib/LD2450/LD2450.cpp:63-99 | the frame (100, 50, 10), (0, 0, 0), (-20, 30, -5) yields two valid targets, an empty middle slot, an empty buffer and result 2 |
| Ld2450Frame.ScenarioFrameThen | lib/LD2450/LD2450.cpp:129-137 | the three-slot frame at the head of a buffer is accepted with result 2 and the loop carries on with the bytes after it |
| Ld2450Frame.EmptyFrameDecodes | lib/LD2450/LD2450.cpp:55-98 | a header with payload length 0 declares a 6-byte frame, which decodeFrame rejects while resetting all three slots |
| Ld2450Frame.EmptyFrameResets | lib/LD2450/LD2450.cpp:110-138 | a lone empty frame is consumed, resets every slot and keeps the earlier result |
| Ld2450Frame.ResultOutlivesSlots | lib/LD2450/LD2450.cpp:108-140 | after the three-slot frame and an empty frame the buffer is empty, every slot is the default record and the result is still 2 |
| Ld2450Driver.LD2450.constructor | lib/LD2450/LD2450.cpp:10 | no source is bound, the buffer is zeroed and empty, and all three slots hold the default record |
| Ld2450Driver.LD2450.Begin | lib/LD2450/LD2450.cpp:12-16 | binds the source, empties the buffer and resets all three slots |
| Ld2450Driver.LD2450.GetSensorSupportedTargetCount | lib/LD2450/LD2450.h:20 | the count is the number of slots in the targets array |
| Ld2450Driver.LD2450.GetTarget | lib/LD2450/LD2450.cpp:18-23 | slot `index` for index < 3, the default record otherwise |
| Ld2450Driver.LD2450.ResetTargets | lib/LD2450/LD2450.cpp:25-29 | every slot holds the default record |
| Ld2450Driver.LD2450.ShiftBuffer | lib/LD2450/LD2450.cpp:31-38 | for 0 < count <= len the contents become old contents[count..] and len shrinks by count, the tail bytes staying as memmove leaves them; otherwise nothing changes |
| Ld2450Driver.LD2450.FindHeaderIndex | lib/LD2450/LD2450.cpp:40-53 | the nested scan returns the earliest header position of the buffered bytes (FindHeader) |
| Ld2450Driver.LD2450.HeaderMatchesAt | lib/LD2450/LD2450.cpp:43-49 | the inner scan reports a match exactly when the header starts at position i |
| Ld2450Driver.LD2450.ExpectedFrameSize | lib/LD2450/LD2450.cpp:55-61 | 0 exactly when len < 6 or the little-endian length in bytes 4-5 exceeds 122; otherwise that length + 6, in [6, 128] |
| Ld2450Driver.LD2450.DecodeFrame | lib/LD2450/LD2450.cpp:63-99 | the verdict and the new slots are those of the DecodeFrame function on the frame's bytes and the old slots |
| Ld2450Driver.LD2450.DecodeSlots | lib/LD2450/LD2450.cpp:72-94 | each slot gets the record its six bytes hold, or the default record when the frame does not cover them, and the count is the number of valid slots |
| Ld2450Driver.LD2450.Read | lib/LD2450/LD2450.cpp:101-141 | unbound: returns 0 and changes nothing; bound: takes min(available, 128 - len) bytes in order, ends in Extract's state, returns 0 when no frame was accepted and otherwise the valid count of the last accepted frame's slots, in 1..3, and leaves an empty buffer or an incomplete frame at offset 0 |
| Ld2450Driver.LD2450.ExtractFrames | lib/LD2450/LD2450.cpp:108-138 | the while(true) loop ends in the buffer, slots and result that Extract gives for the buffered bytes |
| Ld2450Driver.LD2450.ExtractIteration | lib/LD2450/LD2450.cpp:111-137 | one pass of the loop body changes buffer, slots and result as ExtractStep says, and breaks exactly when ExtractStep stops |
| Ld2450Driver.LD2450.CountValidTargets | lib/LD2450/LD2450.cpp:130-133 | the count is the number of valid slots |

## Left out

- The Arduino `Stream` and the `serial_` pointer are I/O. They are replaced
  by the `bound` flag and the `available` byte sequence given to `Read`.
  `available()` and `read()` become an index into that sequence.
- `SIZE_MAX`, the "no header" value of `findHeaderIndex`, is the `None` of
  an `Option`.
- `memmove` is modelled by the element-by-element copy loop in
  `ShiftBuffer`. The copy goes front to back, so it has the same effect as
  an overlapping `memmove` towards lower addresses.
- Ld2450Types.RadarTarget.Distance: there is no stored field. The distance
  is the exact integer rounding of the Euclidean norm of x and y. The C++
  computes it as `roundf(sqrtf(...))` in single-precision floating point,
  which this model does not capture. The C++ result is one more than the
  model's whenever sqrt(x*x + y*y) lies within half a float32 ulp below
  k + 1/2 for an integer k, which first happens near 2 m. For example, at
  (x, y) = (1694, 1166) the sum 4229192 is exact in float32 and its root
  is 2056.49994; `sqrtf` rounds it to 2056.5 and `roundf` rounds that half
  away from zero to 2057, while the model gives 2056. Sums of 2^24 or more
  are also rounded before the root is taken. In the C++ every write of x
  and y also writes the matching distance, or 0 for the default record, so
  deriving it loses no state.
- Ld2450Distance.RoundedNorm: gives the exact rounding of sqrt(x*x + y*y).
  The C++ float result exceeds it by one at inputs such as (1694, 1166), as
  the Ld2450Types.RadarTarget.Distance line above explains.
- Ld2450Distance.RoundedNormIs: states the exact rounding, so at inputs
  such as (1694, 1166) it names 2056 where the C++ float result is 2057, as
  the Ld2450Types.RadarTarget.Distance line above explains.
- `RadarTarget`'s `int` fields are unbounded integers. They only ever hold
  int16 values or 0, so 32-bit wrap-around never arises.
- Bytes are the subset type `uint8` of `int`, not `bv8`. Every byte
  operation in the driver is an OR of a low byte with a shifted high byte,
  which is the arithmetic `lo + 256 * hi`.
- Ld2450Driver.LD2450.Read: the C++ `read()` is one function. The model
  keeps its fill loop in `Read`. It moves the extraction loop into
  `ExtractFrames` and that loop's body into `ExtractIteration`. It also
  moves the valid-slot counting loop into `CountValidTargets`. Likewise,
  the slot loop of `decodeFrame` becomes `DecodeSlots` and the inner loop of
  `findHeaderIndex` becomes `HeaderMatchesAt`. All the loops keep their
  order of steps; the split only keeps each proof small.
- Ld2450Driver.LD2450.Read: the extra `consumed` result is not in the C++.
  It only makes visible how many stream bytes were taken.
