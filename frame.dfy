/** The LD2450 wire format and the frame-extraction procedure, as functions on
    byte sequences. The driver class in Ld2450Driver is proved against these. */
module Ld2450Frame {
  import opened Ld2450Types

  datatype Option<T> = None | Some(value: T)

  /** The four magic bytes that open every frame, first byte first. */
  const FrameHeader: seq<uint8> := [0xFD, 0xFC, 0xFB, 0xFA]

  /** Offset of the first payload byte: header plus the two length bytes. */
  const PayloadStart: nat := 6

  /** Size of one target record in the payload: x, y and speed, two bytes each. */
  const SlotSize: nat := 6

  // ---------------------------------------------------------------------------
  // Header search
  // ---------------------------------------------------------------------------

  /** The frame header occupies s[i .. i+4]. */
  predicate HeaderAt(s: seq<uint8>, i: nat)
  {
    i + |FrameHeader| <= |s| && s[i..i + |FrameHeader|] == FrameHeader
  }

  /** The earliest header position at or after `i`. */
  function FindHeaderFrom(s: seq<uint8>, i: nat): (r: Option<nat>)
    ensures r.Some? ==> i <= r.value && HeaderAt(s, r.value)
    ensures r.Some? ==> forall j :: i <= j < r.value ==> !HeaderAt(s, j)
    ensures r.None? ==> forall j :: i <= j ==> !HeaderAt(s, j)
    decreases |s| - i
  {
    if i + |FrameHeader| > |s| then None
    else if HeaderAt(s, i) then Some(i)
    else FindHeaderFrom(s, i + 1)
  }

  /** The earliest header position in the buffer, or None (SIZE_MAX in C). */
  function FindHeader(s: seq<uint8>): (r: Option<nat>)
    ensures r.Some? ==> r.value + |FrameHeader| <= |s| && HeaderAt(s, r.value)
    ensures r.Some? ==> forall j :: 0 <= j < r.value ==> !HeaderAt(s, j)
    ensures r.None? <==> forall j :: 0 <= j ==> !HeaderAt(s, j)
    ensures |s| < |FrameHeader| ==> r.None?
  {
    FindHeaderFrom(s, 0)
  }

  /** A header with no header before it is the one FindHeader reports. */
  lemma FindHeaderIsEarliest(s: seq<uint8>, i: nat)
    requires HeaderAt(s, i)
    requires forall j :: 0 <= j < i ==> !HeaderAt(s, j)
    ensures FindHeader(s) == Some(i)
  {
    var r := FindHeader(s);
    assert r.Some?;
  }

  // ---------------------------------------------------------------------------
  // Integers on the wire
  // ---------------------------------------------------------------------------

  /** The unsigned little-endian 16-bit value `lo | hi << 8`. */
  function LE16(lo: uint8, hi: uint8): (v: nat)
    ensures v < 0x10000
  {
    lo + 0x100 * hi
  }

  /** `static_cast<int16_t>(lo | hi << 8)`: the two's-complement reading,
      the int16 congruent to the unsigned value modulo 2^16, negative
      exactly when the top bit is set. */
  function ToInt16(lo: uint8, hi: uint8): (v: int16)
    ensures v % 0x10000 == LE16(lo, hi)
    ensures v < 0 <==> hi >= 0x80
  {
    var u := LE16(lo, hi);
    if u < 0x8000 then u else u - 0x10000
  }

  /** The little-endian two's-complement bytes of `v` (what the sensor sends). */
  function FromInt16(v: int16): (b: (uint8, uint8))
  {
    var u := if v < 0 then v + 0x10000 else v;
    (u % 0x100, u / 0x100)
  }

  lemma Int16RoundTrip(v: int16)
    ensures ToInt16(FromInt16(v).0, FromInt16(v).1) == v
  {
  }

  lemma Int16BytesRoundTrip(lo: uint8, hi: uint8)
    ensures FromInt16(ToInt16(lo, hi)) == (lo, hi)
  {
  }

  // ---------------------------------------------------------------------------
  // Declared frame size
  // ---------------------------------------------------------------------------

  /** The payload length field of a buffer that holds at least six bytes. */
  function PayloadLength(s: seq<uint8>): nat
    requires |s| >= PayloadStart
  {
    LE16(s[4], s[5])
  }

  /** The total frame size the buffer declares, or 0 when the buffer is too
      short to hold the length field or the declared frame would not fit the
      accumulation buffer. */
  function ExpectedFrameSize(s: seq<uint8>): (r: nat)
    ensures r == 0 <==> |s| < PayloadStart || PayloadLength(s) > FrameBufferSize - PayloadStart
    ensures r != 0 ==> PayloadStart <= r <= FrameBufferSize && r == PayloadLength(s) + PayloadStart
  {
    if |s| < PayloadStart then 0
    else if PayloadLength(s) > FrameBufferSize - PayloadStart then 0
    else PayloadLength(s) + PayloadStart
  }

  // ---------------------------------------------------------------------------
  // Target records
  // ---------------------------------------------------------------------------

  /** All three 16-bit fields of `t` are int16 values. */
  predicate FieldsInt16(t: RadarTarget)
  {
    -0x8000 <= t.x < 0x8000 && -0x8000 <= t.y < 0x8000 && -0x8000 <= t.speed < 0x8000
  }

  /** One 6-byte target record: x, y and speed, each a little-endian int16. */
  function DecodeTarget(b: seq<uint8>): (t: RadarTarget)
    requires |b| == SlotSize
    ensures FieldsInt16(t)
    ensures t.valid <==> !(t.x == 0 && t.y == 0 && t.speed == 0)
  {
    var x := ToInt16(b[0], b[1]);
    var y := ToInt16(b[2], b[3]);
    var speed := ToInt16(b[4], b[5]);
    RadarTarget(!(x == 0 && y == 0 && speed == 0), x, y, speed)
  }

  /** The 6 wire bytes of a target record with the given fields. */
  function EncodeTarget(x: int16, y: int16, speed: int16): (b: seq<uint8>)
    ensures |b| == SlotSize
  {
    [FromInt16(x).0, FromInt16(x).1, FromInt16(y).0, FromInt16(y).1,
     FromInt16(speed).0, FromInt16(speed).1]
  }

  /** Decoding an encoded record gives back its fields; it is valid exactly
      when some field is nonzero. */
  lemma DecodeEncodeTarget(x: int16, y: int16, speed: int16)
    ensures DecodeTarget(EncodeTarget(x, y, speed))
         == RadarTarget(!(x == 0 && y == 0 && speed == 0), x, y, speed)
  {
    Int16RoundTrip(x);
    Int16RoundTrip(y);
    Int16RoundTrip(speed);
  }

  /** Every 6-byte record is the encoding of the fields decoded from it. */
  lemma EncodeDecodeTarget(b: seq<uint8>)
    requires |b| == SlotSize
    ensures var t := DecodeTarget(b); EncodeTarget(t.x as int16, t.y as int16, t.speed as int16) == b
  {
    Int16BytesRoundTrip(b[0], b[1]);
    Int16BytesRoundTrip(b[2], b[3]);
    Int16BytesRoundTrip(b[4], b[5]);
  }

  /** An all-zero record decodes to exactly the default record. */
  lemma ZeroRecordIsDefault()
    ensures DecodeTarget([0, 0, 0, 0, 0, 0]) == DefaultTarget
  {
  }

  /** Number of valid records in a slot sequence. */
  function CountValid(s: seq<RadarTarget>): (n: nat)
    ensures n <= |s|
    ensures n == 0 <==> forall i :: 0 <= i < |s| ==> !s[i].valid
  {
    if s == [] then 0
    else CountValid(s[..|s| - 1]) + (if s[|s| - 1].valid then 1 else 0)
  }

  lemma CountValidOfThree(a: RadarTarget, b: RadarTarget, c: RadarTarget)
    ensures CountValid([a, b, c]) == (if a.valid then 1 else 0) + (if b.valid then 1 else 0) + (if c.valid then 1 else 0)
  {
    assert CountValid([a]) == (if a.valid then 1 else 0) by {
      assert [a][..0] == [];
    }
    assert CountValid([a, b]) == CountValid([a]) + (if b.valid then 1 else 0) by {
      assert [a, b][..1] == [a];
    }
    assert [a, b, c][..2] == [a, b];
  }

  // ---------------------------------------------------------------------------
  // Frame decoding
  // ---------------------------------------------------------------------------

  /** Payload bytes inside a frame of `length` bytes. */
  function PayloadAvailable(length: nat): nat
  {
    if length > PayloadStart then length - PayloadStart else 0
  }

  /** The record slot `i` receives from a frame of `length` bytes: decoded
      from its six bytes when they lie within the frame, the default record
      otherwise. */
  function SlotAt(frame: seq<uint8>, length: nat, i: nat): (t: RadarTarget)
    requires length <= |frame|
    ensures 12 + 6 * i <= length ==> t == DecodeTarget(frame[6 + 6 * i..12 + 6 * i])
    ensures 12 + 6 * i > length ==> t == DefaultTarget
  {
    var base := PayloadStart + i * 6;
    if base + SlotSize > PayloadStart + PayloadAvailable(length) then DefaultTarget
    else DecodeTarget(frame[base..base + SlotSize])
  }

  /** Slot i read field by field, as decodeFrame's loop body does. */
  lemma SlotAtFields(frame: seq<uint8>, length: nat, i: nat, base: nat, x: int16, y: int16, speed: int16)
    requires length <= |frame|
    requires base == PayloadStart + i * 6 && base + SlotSize <= PayloadStart + PayloadAvailable(length)
    requires x == ToInt16(frame[base], frame[base + 1])
    requires y == ToInt16(frame[base + 2], frame[base + 3])
    requires speed == ToInt16(frame[base + 4], frame[base + 5])
    ensures SlotAt(frame, length, i) == RadarTarget(!(x == 0 && y == 0 && speed == 0), x, y, speed)
  {
  }

  /** The frame passes decodeFrame's two length checks. */
  function LengthAccepted(frame: seq<uint8>, length: nat): (b: bool)
    requires length <= |frame|
    ensures length < PayloadStart ==> !b
    ensures ExpectedFrameSize(frame[..length]) != 0 ==> (b <==> ExpectedFrameSize(frame[..length]) <= length)
  {
    assert length >= PayloadStart ==> frame[..length][4] == frame[4] && frame[..length][5] == frame[5];
    length >= PayloadStart && length >= PayloadLength(frame) + PayloadStart
  }

  /** read() hands decodeFrame a frame of exactly the size the buffer
      declares, so its length checks always pass there. */
  lemma FramesFromReadPassLengthChecks(buf: seq<uint8>)
    requires 0 < ExpectedFrameSize(buf) <= |buf|
    ensures LengthAccepted(buf, ExpectedFrameSize(buf))
  {
  }

  /** decodeFrame: the success verdict and the new slot array. A frame that
      fails the length checks leaves the slots alone; any other frame
      overwrites all three slots, and is reported successful when it carried
      bytes for all three slots and at least one of them is valid. */
  function DecodeFrame(frame: seq<uint8>, length: nat, slots: seq<RadarTarget>)
    : (r: (bool, seq<RadarTarget>))
    requires length <= |frame|
    requires |slots| == SupportedTargets
    ensures |r.1| == SupportedTargets
  {
    if !LengthAccepted(frame, length) then (false, slots)
    else
      var decoded := [SlotAt(frame, length, 0), SlotAt(frame, length, 1), SlotAt(frame, length, 2)];
      (PayloadAvailable(length) >= SupportedTargets * SlotSize && CountValid(decoded) > 0, decoded)
  }

  /** Slot i of an accepted frame is decoded from frame bytes 6+6i .. 12+6i
      when the frame covers them and is the default record otherwise; a frame
      that fails the length checks changes no slot. */
  lemma DecodeFrameSlots(frame: seq<uint8>, length: nat, slots: seq<RadarTarget>, i: nat)
    requires length <= |frame|
    requires |slots| == SupportedTargets
    requires i < SupportedTargets
    ensures !LengthAccepted(frame, length) ==> DecodeFrame(frame, length, slots).1 == slots
    ensures LengthAccepted(frame, length) && 12 + 6 * i <= length ==>
              DecodeFrame(frame, length, slots).1[i] == DecodeTarget(frame[6 + 6 * i..12 + 6 * i])
    ensures LengthAccepted(frame, length) && 12 + 6 * i > length ==>
              DecodeFrame(frame, length, slots).1[i] == DefaultTarget
  {
  }

  /** decodeFrame looks at the first `length` bytes of the frame only. */
  lemma DecodeFrameReadsPrefix(f: seq<uint8>, g: seq<uint8>, length: nat, slots: seq<RadarTarget>)
    requires length <= |f| && length <= |g| && f[..length] == g[..length]
    requires |slots| == SupportedTargets
    ensures DecodeFrame(f, length, slots) == DecodeFrame(g, length, slots)
  {
    if length >= PayloadStart {
      assert f[4] == f[..length][4] && f[5] == f[..length][5];
      assert g[4] == g[..length][4] && g[5] == g[..length][5];
    }
    SlotAtReadsPrefix(f, g, length, 0);
    SlotAtReadsPrefix(f, g, length, 1);
    SlotAtReadsPrefix(f, g, length, 2);
  }

  lemma SlotAtReadsPrefix(f: seq<uint8>, g: seq<uint8>, length: nat, i: nat)
    requires length <= |f| && length <= |g| && f[..length] == g[..length]
    ensures SlotAt(f, length, i) == SlotAt(g, length, i)
  {
    var base := PayloadStart + i * 6;
    if base + SlotSize <= PayloadStart + PayloadAvailable(length) {
      SliceOfAgreeingPrefix(f, g, length, base, base + SlotSize);
    }
  }

  /** Two sequences that agree on their first `length` elements agree on
      every slice inside that prefix. */
  lemma SliceOfAgreeingPrefix<T>(f: seq<T>, g: seq<T>, length: nat, a: nat, b: nat)
    requires length <= |f| && length <= |g| && f[..length] == g[..length]
    requires a <= b <= length
    ensures f[a..b] == g[a..b]
  {
    forall k | a <= k < b
      ensures f[k] == g[k]
    {
      assert f[k] == f[..length][k];
      assert g[k] == g[..length][k];
    }
    assert forall k :: 0 <= k < b - a ==> f[a..b][k] == f[a + k] && g[a..b][k] == g[a + k];
  }

  /** decodeFrame reports success exactly when the length checks pass, the
      frame carries all 18 payload bytes and some slot is valid. */
  lemma DecodeFrameVerdict(frame: seq<uint8>, length: nat, slots: seq<RadarTarget>)
    requires length <= |frame|
    requires |slots| == SupportedTargets
    ensures var (ok, out) := DecodeFrame(frame, length, slots);
            ok <==> LengthAccepted(frame, length) && length >= PayloadStart + SupportedTargets * SlotSize
                    && exists i :: 0 <= i < SupportedTargets && out[i].valid
  {
    var (ok, out) := DecodeFrame(frame, length, slots);
    if ok {
      assert CountValid(out) > 0;
      var i :| 0 <= i < |out| && out[i].valid;
    }
  }

  lemma ZeroSlotIsDefault(frame: seq<uint8>, length: nat, i: nat)
    requires length <= |frame|
    requires forall k :: PayloadStart <= k < length ==> frame[k] == 0
    ensures SlotAt(frame, length, i) == DefaultTarget
  {
    var base := PayloadStart + i * 6;
    if base + SlotSize <= PayloadStart + PayloadAvailable(length) {
      assert frame[base..base + SlotSize] == [0, 0, 0, 0, 0, 0];
      ZeroRecordIsDefault();
    }
  }

  /** A frame that passes the length checks but is rejected still replaces
      the slots: a frame whose payload bytes are all zero (including one with
      an empty payload) resets every slot to the default record. */
  lemma RejectedFrameOverwritesSlots(frame: seq<uint8>, length: nat, slots: seq<RadarTarget>)
    requires length <= |frame|
    requires |slots| == SupportedTargets
    requires LengthAccepted(frame, length)
    requires forall k :: PayloadStart <= k < length ==> frame[k] == 0
    ensures DecodeFrame(frame, length, slots) == (false, [DefaultTarget, DefaultTarget, DefaultTarget])
  {
    ZeroSlotIsDefault(frame, length, 0);
    ZeroSlotIsDefault(frame, length, 1);
    ZeroSlotIsDefault(frame, length, 2);
    CountValidOfThree(DefaultTarget, DefaultTarget, DefaultTarget);
  }

  // ---------------------------------------------------------------------------
  // The extraction loop of read()
  // ---------------------------------------------------------------------------

  /** State when the extraction loop stops: the bytes left in the buffer, the
      slot array, the value read() will return, the slot array as it was
      right after the last frame decodeFrame accepted, and the number of
      frames it accepted on the way. */
  datatype Outcome = Outcome(rest: seq<uint8>, slots: seq<RadarTarget>, lastValid: nat,
                             lastSlots: seq<RadarTarget>, accepted: nat)

  /** What one iteration of the loop does: stop with the given bytes left in
      the buffer (slots and result untouched), or go on from a new state. */
  datatype Step =
    | Stop(rest: seq<uint8>)
    | Next(buf: seq<uint8>, slots: seq<RadarTarget>, last: nat, lastSlots: seq<RadarTarget>, accepted: nat)

  /** One iteration of read()'s extraction loop: drop everything when there
      is no header, drop the noise before a header, drop one byte on an
      unusable length, stop on an incomplete frame, and otherwise decode the
      frame and consume it. Every iteration that goes on shrinks the buffer
      by dropping a prefix of it; one that stops leaves an empty buffer or
      an incomplete frame at offset 0; the result changes only on an
      accepted frame, to the number of valid slots that frame left. */
  function ExtractStep(buf: seq<uint8>, slots: seq<RadarTarget>, last: nat, lastSlots: seq<RadarTarget>, accepted: nat): (s: Step)
    requires |slots| == SupportedTargets
    ensures s.Stop? ==> s.rest == [] || s.rest == buf
    ensures s.Stop? ==> s.rest == [] || (HeaderAt(s.rest, 0) && ExpectedFrameSize(s.rest) > |s.rest|)
    ensures s.Next? ==> |s.buf| < |buf| && s.buf == buf[|buf| - |s.buf|..] && |s.slots| == SupportedTargets
    ensures s.Next? ==> accepted <= s.accepted <= accepted + 1
    ensures s.Next? && s.accepted == accepted ==> s.last == last && s.lastSlots == lastSlots
    ensures s.Next? && s.accepted > accepted ==>
              s.lastSlots == s.slots && s.last == CountValid(s.slots) && 1 <= s.last <= SupportedTargets
  {
    match FindHeader(buf)
    case None => Stop([])
    case Some(h) =>
      if h > 0 then Next(buf[h..], slots, last, lastSlots, accepted)
      else
        var size := ExpectedFrameSize(buf);
        if size == 0 then Next(buf[1..], slots, last, lastSlots, accepted)
        else if size > |buf| then Stop(buf)
        else
          var (ok, decoded) := DecodeFrame(buf, size, slots);
          CountValidOfDecoded(buf, size, slots);
          if ok then Next(buf[size..], decoded, CountValid(decoded), decoded, accepted + 1)
          else Next(buf[size..], decoded, last, lastSlots, accepted)
  }

  /** An accepted frame has between one and three valid slots. */
  lemma CountValidOfDecoded(frame: seq<uint8>, length: nat, slots: seq<RadarTarget>)
    requires length <= |frame|
    requires |slots| == SupportedTargets
    ensures var (ok, decoded) := DecodeFrame(frame, length, slots);
            ok ==> 1 <= CountValid(decoded) <= SupportedTargets
  {
  }

  /** One run of read()'s extraction loop from buffer contents `buf`, slot
      array `slots`, result-so-far `last`, slots `lastSlots` left by the last
      accepted frame and `accepted` frames accepted so far: ExtractStep
      repeated until it stops. */
  function Extract(buf: seq<uint8>, slots: seq<RadarTarget>, last: nat, lastSlots: seq<RadarTarget>, accepted: nat): (o: Outcome)
    requires |slots| == SupportedTargets
    ensures |o.slots| == SupportedTargets
    decreases |buf|
  {
    match ExtractStep(buf, slots, last, lastSlots, accepted)
    case Stop(rest) => Outcome(rest, slots, last, lastSlots, accepted)
    case Next(b, s, l, d, a) => Extract(b, s, l, d, a)
  }

  // One iteration of the loop, one lemma per branch.

  lemma ExtractNoHeader(buf: seq<uint8>, slots: seq<RadarTarget>, last: nat, lastSlots: seq<RadarTarget>, accepted: nat)
    requires |slots| == SupportedTargets
    requires FindHeader(buf).None?
    ensures Extract(buf, slots, last, lastSlots, accepted) == Outcome([], slots, last, lastSlots, accepted)
  {
  }

  lemma ExtractSkipsNoise(buf: seq<uint8>, slots: seq<RadarTarget>, last: nat, lastSlots: seq<RadarTarget>, accepted: nat, h: nat)
    requires |slots| == SupportedTargets
    requires FindHeader(buf) == Some(h) && h > 0
    ensures h <= |buf|
    ensures Extract(buf, slots, last, lastSlots, accepted) == Extract(buf[h..], slots, last, lastSlots, accepted)
  {
  }

  lemma ExtractDropsOneByte(buf: seq<uint8>, slots: seq<RadarTarget>, last: nat, lastSlots: seq<RadarTarget>, accepted: nat)
    requires |slots| == SupportedTargets
    requires FindHeader(buf) == Some(0) && ExpectedFrameSize(buf) == 0
    ensures |buf| >= 1
    ensures Extract(buf, slots, last, lastSlots, accepted) == Extract(buf[1..], slots, last, lastSlots, accepted)
  {
  }

  lemma ExtractWaits(buf: seq<uint8>, slots: seq<RadarTarget>, last: nat, lastSlots: seq<RadarTarget>, accepted: nat)
    requires |slots| == SupportedTargets
    requires FindHeader(buf) == Some(0) && ExpectedFrameSize(buf) > |buf|
    ensures Extract(buf, slots, last, lastSlots, accepted) == Outcome(buf, slots, last, lastSlots, accepted)
  {
  }

  lemma ExtractConsumesFrame(buf: seq<uint8>, slots: seq<RadarTarget>, last: nat, lastSlots: seq<RadarTarget>, accepted: nat)
    requires |slots| == SupportedTargets
    requires FindHeader(buf) == Some(0) && 0 < ExpectedFrameSize(buf) <= |buf|
    ensures var size := ExpectedFrameSize(buf);
            var (ok, decoded) := DecodeFrame(buf, size, slots);
            Extract(buf, slots, last, lastSlots, accepted)
              == if ok then Extract(buf[size..], decoded, CountValid(decoded), decoded, accepted + 1)
                 else Extract(buf[size..], decoded, last, lastSlots, accepted)
  {
  }

  /** The loop only ever drops leading bytes: what remains is a suffix. */
  lemma {:induction false} ExtractRestIsSuffix(buf: seq<uint8>, slots: seq<RadarTarget>, last: nat, lastSlots: seq<RadarTarget>, accepted: nat)
    requires |slots| == SupportedTargets
    ensures var o := Extract(buf, slots, last, lastSlots, accepted);
            |o.rest| <= |buf| && o.rest == buf[|buf| - |o.rest|..]
    decreases |buf|
  {
    match ExtractStep(buf, slots, last, lastSlots, accepted)
    case Stop(rest) =>
    case Next(b, s, l, d, a) =>
      ExtractRestIsSuffix(b, s, l, d, a);
      var o := Extract(b, s, l, d, a);
      assert b[|b| - |o.rest|..] == buf[|buf| - |o.rest|..];
  }

  /** When the loop stops, the buffer is empty, or it starts with a header
      whose declared frame is longer than what is buffered. */
  lemma {:induction false} ExtractExit(buf: seq<uint8>, slots: seq<RadarTarget>, last: nat, lastSlots: seq<RadarTarget>, accepted: nat)
    requires |slots| == SupportedTargets
    ensures var o := Extract(buf, slots, last, lastSlots, accepted);
            o.rest == [] || (HeaderAt(o.rest, 0) && ExpectedFrameSize(o.rest) > |o.rest|)
    decreases |buf|
  {
    match ExtractStep(buf, slots, last, lastSlots, accepted)
    case Stop(rest) =>
    case Next(b, s, l, d, a) =>
      ExtractExit(b, s, l, d, a);
  }

  /** read()'s result: unchanged when no frame was accepted, otherwise the
      number of valid slots right after the last accepted frame, which lies
      in 1..3. (The slots themselves may have been overwritten since by a
      rejected frame.) */
  lemma {:induction false} ExtractResult(buf: seq<uint8>, slots: seq<RadarTarget>, last: nat, lastSlots: seq<RadarTarget>, accepted: nat)
    requires |slots| == SupportedTargets
    ensures var o := Extract(buf, slots, last, lastSlots, accepted);
            accepted <= o.accepted &&
            (o.accepted == accepted ==> o.lastValid == last && o.lastSlots == lastSlots) &&
            (o.accepted > accepted ==>
               o.lastValid == CountValid(o.lastSlots) && 1 <= o.lastValid <= SupportedTargets)
    decreases |buf|
  {
    match ExtractStep(buf, slots, last, lastSlots, accepted)
    case Stop(rest) =>
    case Next(b, s, l, d, a) =>
      ExtractResult(b, s, l, d, a);
  }

  /** Resynchronisation: leading bytes in which no header starts (junk, or
      the tail of a lost frame, 0xFD bytes included) are dropped in front of
      a header without touching the slots or the result. */
  lemma NoiseBeforeHeaderIsDropped(noise: seq<uint8>, rest: seq<uint8>, slots: seq<RadarTarget>, last: nat, lastSlots: seq<RadarTarget>, accepted: nat)
    requires |slots| == SupportedTargets
    requires forall j :: 0 <= j < |noise| ==> !HeaderAt(noise + rest, j)
    requires HeaderAt(rest, 0)
    ensures Extract(noise + rest, slots, last, lastSlots, accepted) == Extract(rest, slots, last, lastSlots, accepted)
  {
    var s := noise + rest;
    if |noise| > 0 {
      assert s[|noise|..] == rest;
      assert s[|noise|..|noise| + |FrameHeader|] == rest[..|FrameHeader|];
      FindHeaderIsEarliest(s, |noise|);
      ExtractSkipsNoise(s, slots, last, lastSlots, accepted, |noise|);
    }
  }

  /** A header buffered without both length bytes is not kept waiting: its
      first byte is dropped, and with it the rest of the partial frame. */
  lemma ShortHeaderIsDiscarded(buf: seq<uint8>, slots: seq<RadarTarget>, last: nat, lastSlots: seq<RadarTarget>, accepted: nat)
    requires |slots| == SupportedTargets
    requires HeaderAt(buf, 0) && |buf| < PayloadStart
    ensures Extract(buf, slots, last, lastSlots, accepted) == Outcome([], slots, last, lastSlots, accepted)
  {
    assert buf[..4] == FrameHeader;
    FindHeaderIsEarliest(buf, 0);
    ExtractDropsOneByte(buf, slots, last, lastSlots, accepted);
    var t := buf[1..];
    assert |t| < 5 && t[0] == FrameHeader[1];
    assert FindHeader(t).None?;
    ExtractNoHeader(t, slots, last, lastSlots, accepted);
  }

  // ---------------------------------------------------------------------------
  // Round trip through a whole frame
  // ---------------------------------------------------------------------------

  /** A complete frame carrying three records, as the sensor sends it. */
  function EncodeFrame(ts: seq<(int16, int16, int16)>): (f: seq<uint8>)
    requires |ts| == SupportedTargets
    ensures |f| == PayloadStart + SupportedTargets * SlotSize
  {
    FrameHeader + [18, 0]
    + EncodeTarget(ts[0].0, ts[0].1, ts[0].2)
    + EncodeTarget(ts[1].0, ts[1].1, ts[1].2)
    + EncodeTarget(ts[2].0, ts[2].1, ts[2].2)
  }

  /** The record the driver holds after decoding the given fields. */
  function Decoded(t: (int16, int16, int16)): RadarTarget
  {
    RadarTarget(!(t.0 == 0 && t.1 == 0 && t.2 == 0), t.0, t.1, t.2)
  }

  /** decodeFrame on an encoded frame gives back the encoded records, and
      accepts it exactly when one of them is valid. */
  lemma DecodeEncodedFrame(ts: seq<(int16, int16, int16)>, slots: seq<RadarTarget>)
    requires |ts| == SupportedTargets
    requires |slots| == SupportedTargets
    ensures var expected := [Decoded(ts[0]), Decoded(ts[1]), Decoded(ts[2])];
            DecodeFrame(EncodeFrame(ts), 24, slots) == (CountValid(expected) > 0, expected)
  {
    var f := EncodeFrame(ts);
    assert f[4] == 18 && f[5] == 0;
    assert f[6..12] == EncodeTarget(ts[0].0, ts[0].1, ts[0].2);
    assert f[12..18] == EncodeTarget(ts[1].0, ts[1].1, ts[1].2);
    assert f[18..24] == EncodeTarget(ts[2].0, ts[2].1, ts[2].2);
    DecodeEncodeTarget(ts[0].0, ts[0].1, ts[0].2);
    DecodeEncodeTarget(ts[1].0, ts[1].1, ts[1].2);
    DecodeEncodeTarget(ts[2].0, ts[2].1, ts[2].2);
  }

  /** Feeding one encoded frame to the extraction loop consumes it entirely
      and leaves the encoded values in the slots; the result is the number
      of valid slots, or the earlier result when no slot is valid. */
  lemma FrameRoundTrip(ts: seq<(int16, int16, int16)>, slots: seq<RadarTarget>, last: nat)
    requires |ts| == SupportedTargets
    requires |slots| == SupportedTargets
    ensures var expected := [Decoded(ts[0]), Decoded(ts[1]), Decoded(ts[2])];
            var o := Extract(EncodeFrame(ts), slots, last, slots, 0);
            o.rest == [] && o.slots == expected &&
            o.lastValid == (if CountValid(expected) > 0 then CountValid(expected) else last)
  {
    var f := EncodeFrame(ts);
    assert f[..4] == FrameHeader;
    FindHeaderIsEarliest(f, 0);
    assert f[4] == 18 && f[5] == 0;
    assert ExpectedFrameSize(f) == 24;
    DecodeEncodedFrame(ts, slots);
    assert f[24..] == [];
    assert FindHeader([]) == None;
  }

  /** A frame with slots (100, 50, 10), (0, 0, 0) and (-20, 30, -5): two
      valid targets, at distances 112 mm and 36 mm. */
  lemma ThreeSlotScenario(slots: seq<RadarTarget>)
    requires |slots| == SupportedTargets
    ensures var o := Extract(EncodeFrame([(100, 50, 10), (0, 0, 0), (-20, 30, -5)]), slots, 0, slots, 0);
            o.rest == [] && o.lastValid == 2 &&
            o.slots == [RadarTarget(true, 100, 50, 10), DefaultTarget, RadarTarget(true, -20, 30, -5)]
  {
    var expected := [RadarTarget(true, 100, 50, 10), DefaultTarget, RadarTarget(true, -20, 30, -5)];
    CountValidOfThree(expected[0], expected[1], expected[2]);
    FrameRoundTrip([(100, 50, 10), (0, 0, 0), (-20, 30, -5)], slots, 0);
  }

  /** The three-slot frame at the head of a longer buffer is accepted with
      two valid slots, and the loop carries on with the bytes after it. */
  lemma ScenarioFrameThen(e: seq<uint8>, slots: seq<RadarTarget>)
    requires |slots| == SupportedTargets
    ensures var expected := [RadarTarget(true, 100, 50, 10), DefaultTarget, RadarTarget(true, -20, 30, -5)];
            Extract(EncodeFrame([(100, 50, 10), (0, 0, 0), (-20, 30, -5)]) + e, slots, 0, slots, 0)
              == Extract(e, expected, 2, expected, 1)
  {
    var ts := [(100, 50, 10), (0, 0, 0), (-20, 30, -5)];
    var f := EncodeFrame(ts);
    var g := f + e;
    var expected := [RadarTarget(true, 100, 50, 10), DefaultTarget, RadarTarget(true, -20, 30, -5)];
    CountValidOfThree(expected[0], expected[1], expected[2]);
    assert g[..4] == FrameHeader;
    FindHeaderIsEarliest(g, 0);
    assert g[4] == 18 && g[5] == 0;
    assert ExpectedFrameSize(g) == 24;
    assert g[..24] == f[..24];
    DecodeFrameReadsPrefix(g, f, 24, slots);
    DecodeEncodedFrame(ts, slots);
    ExtractConsumesFrame(g, slots, 0, slots, 0);
    assert g[24..] == e;
  }

  /** A header with an empty payload passes the length checks and is
      rejected: every slot is reset and the earlier result is kept. */
  lemma EmptyFrameResets(slots: seq<RadarTarget>, last: nat, lastSlots: seq<RadarTarget>, accepted: nat)
    requires |slots| == SupportedTargets
    ensures Extract(FrameHeader + [0, 0], slots, last, lastSlots, accepted)
              == Outcome([], [DefaultTarget, DefaultTarget, DefaultTarget], last, lastSlots, accepted)
  {
    var e := FrameHeader + [0, 0];
    var d3 := [DefaultTarget, DefaultTarget, DefaultTarget];
    assert e[..4] == FrameHeader;
    FindHeaderIsEarliest(e, 0);
    EmptyFrameDecodes(slots);
    ExtractConsumesFrame(e, slots, last, lastSlots, accepted);
    assert e[6..] == [];
    assert Extract(e, slots, last, lastSlots, accepted) == Extract([], d3, last, lastSlots, accepted);
    ExtractNoHeader([], d3, last, lastSlots, accepted);
  }

  lemma EmptyFrameDecodes(slots: seq<RadarTarget>)
    requires |slots| == SupportedTargets
    ensures ExpectedFrameSize(FrameHeader + [0, 0]) == 6
    ensures DecodeFrame(FrameHeader + [0, 0], 6, slots) == (false, [DefaultTarget, DefaultTarget, DefaultTarget])
  {
    var e := FrameHeader + [0, 0];
    assert e[4] == 0 && e[5] == 0;
    FramesFromReadPassLengthChecks(e);
    RejectedFrameOverwritesSlots(e, 6, slots);
  }

  /** read()'s result is not a count of the slots it leaves: after the
      three-slot frame, a header with an empty payload passes the length
      checks, is rejected and resets every slot, yet the result stays 2. */
  lemma ResultOutlivesSlots(slots: seq<RadarTarget>)
    requires |slots| == SupportedTargets
    ensures var o := Extract(EncodeFrame([(100, 50, 10), (0, 0, 0), (-20, 30, -5)]) + (FrameHeader + [0, 0]),
                             slots, 0, slots, 0);
            o.rest == [] && o.lastValid == 2 && o.slots == [DefaultTarget, DefaultTarget, DefaultTarget]
  {
    var expected := [RadarTarget(true, 100, 50, 10), DefaultTarget, RadarTarget(true, -20, 30, -5)];
    ScenarioFrameThen(FrameHeader + [0, 0], slots);
    EmptyFrameResets(expected, 2, expected, 1);
  }
}
