/** The LD2450 driver object: a 128-byte accumulation buffer, its fill level
    and three target slots, updated in place by read(). */
module Ld2450Driver {
  import opened Ld2450Types
  import opened Ld2450Frame

  class LD2450 {
    /** A byte source has been bound by Begin (serial_ != nullptr). */
    var bound: bool
    /** The accumulation buffer (buffer_). */
    var buffer: array<uint8>
    /** Number of buffered bytes (bufferLength_). */
    var len: nat
    /** The target slots (targets_). */
    var targets: array<RadarTarget>

    ghost predicate Valid()
      reads this
    {
      buffer.Length == FrameBufferSize && targets.Length == SupportedTargets && len <= buffer.Length
    }

    /** The bytes currently buffered. */
    ghost function Contents(): seq<uint8>
      reads this, buffer
      requires Valid()
    {
      buffer[..len]
    }

    /** The current slot array. */
    ghost function Slots(): seq<RadarTarget>
      reads this, targets
    {
      targets[..]
    }

    /** LD2450(): no source, a zeroed empty buffer, all slots default. */
    constructor ()
      ensures Valid() && fresh(buffer) && fresh(targets)
      ensures !bound && Contents() == []
      ensures buffer[..] == seq(FrameBufferSize, _ => 0)
      ensures Slots() == [DefaultTarget, DefaultTarget, DefaultTarget]
    {
      bound := false;
      buffer := new uint8[FrameBufferSize](_ => 0);
      len := 0;
      targets := new RadarTarget[SupportedTargets];
      new;
      ResetTargets();
    }

    /** begin(serial): bind the source, reset the slots, empty the buffer. */
    method Begin()
      requires Valid()
      modifies this, targets
      ensures Valid() && buffer == old(buffer) && targets == old(targets)
      ensures bound && Contents() == []
      ensures Slots() == [DefaultTarget, DefaultTarget, DefaultTarget]
    {
      bound := true;
      ResetTargets();
      len := 0;
    }

    /** getSensorSupportedTargetCount(): the number of slots. */
    function GetSensorSupportedTargetCount(): (n: nat)
      reads this
      requires Valid()
      ensures n == targets.Length
    {
      SupportedTargets
    }

    /** getTarget(index): the slot's record, or the default record when the
        index is out of range. */
    function GetTarget(index: nat): (t: RadarTarget)
      reads this, targets
      requires Valid()
      ensures index < SupportedTargets ==> t == Slots()[index]
      ensures index >= SupportedTargets ==> t == DefaultTarget
    {
      if index >= SupportedTargets then DefaultTarget else targets[index]
    }

    /** resetTargets(): every slot becomes the default record. */
    method ResetTargets()
      modifies targets
      ensures Slots() == seq(targets.Length, _ => DefaultTarget)
    {
      for i := 0 to targets.Length
        invariant forall k :: 0 <= k < i ==> targets[k] == DefaultTarget
      {
        targets[i] := DefaultTarget;
      }
    }

    /** shiftBuffer(count): drop the first `count` buffered bytes; a count of
        zero or beyond the fill level changes nothing. Like memmove, the
        bytes after the new fill level keep their old values. */
    method ShiftBuffer(count: nat)
      requires Valid()
      modifies this`len, buffer
      ensures Valid()
      ensures count == 0 || count > old(len) ==> len == old(len) && buffer[..] == old(buffer[..])
      ensures 0 < count <= old(len) ==>
                len == old(len) - count &&
                buffer[..] == old(buffer[count..len]) + old(buffer[len - count..])
      ensures 0 < count <= old(len) ==> Contents() == old(Contents())[count..]
    {
      if count == 0 || count > len {
        return;
      }
      var remaining := len - count;
      for k := 0 to remaining
        invariant buffer[..k] == old(buffer[count..count + k])
        invariant buffer[k..] == old(buffer[k..])
      {
        buffer[k] := buffer[k + count];
      }
      len := remaining;
    }

    /** findHeaderIndex(): the earliest header position in the buffered bytes. */
    method FindHeaderIndex() returns (r: Option<nat>)
      requires Valid()
      ensures r == FindHeader(Contents())
    {
      if len < |FrameHeader| {
        return None;
      }
      var i := 0;
      while i <= len - |FrameHeader|
        invariant i <= len - |FrameHeader| + 1
        invariant FindHeader(Contents()) == FindHeaderFrom(Contents(), i)
      {
        var matched := HeaderMatchesAt(i);
        if matched {
          return Some(i);
        }
        i := i + 1;
      }
      return None;
    }

    /** The inner loop of findHeaderIndex(): whether the header starts at
        buffered position i. */
    method HeaderMatchesAt(i: nat) returns (matched: bool)
      requires Valid() && i + |FrameHeader| <= len
      ensures matched <==> HeaderAt(Contents(), i)
    {
      matched := true;
      var j := 0;
      while j < |FrameHeader|
        invariant j <= |FrameHeader| && matched
        invariant forall k :: 0 <= k < j ==> buffer[i + k] == FrameHeader[k]
      {
        if buffer[i + j] != FrameHeader[j] {
          matched := false;
          break;
        }
        j := j + 1;
      }
      if matched {
        assert Contents()[i..i + |FrameHeader|] == FrameHeader;
      } else {
        assert Contents()[i..i + |FrameHeader|][j] != FrameHeader[j];
      }
    }

    /** expectedFrameSize(): the frame size the buffered bytes declare. */
    function ExpectedFrameSize(): (r: nat)
      reads this, buffer
      requires Valid()
      ensures r == 0 <==> len < PayloadStart || LE16(buffer[4], buffer[5]) > FrameBufferSize - PayloadStart
      ensures r != 0 ==> PayloadStart <= r <= FrameBufferSize && r == LE16(buffer[4], buffer[5]) + PayloadStart
    {
      Ld2450Frame.ExpectedFrameSize(buffer[..len])
    }

    /** decodeFrame(frame, length): overwrite the slots from the frame and
        report whether it held a full set of records with a valid target. */
    method DecodeFrame(frame: array<uint8>, length: nat) returns (ok: bool)
      requires Valid()
      requires length <= frame.Length
      modifies targets
      ensures (ok, Slots()) == Ld2450Frame.DecodeFrame(frame[..], length, old(Slots()))
    {
      if length < PayloadStart {
        return false;
      }
      var payloadLength := LE16(frame[4], frame[5]);
      var expectedLength := payloadLength + PayloadStart;
      if length < expectedLength {
        return false;
      }
      var payloadAvailable := if length > PayloadStart then length - PayloadStart else 0;
      var validCount := DecodeSlots(frame, length, payloadAvailable);
      // If the payload holds fewer bytes than three records need, the frame is rejected.
      ok := payloadAvailable >= SupportedTargets * SlotSize && validCount > 0;
    }

    /** The slot loop of decodeFrame(): every slot receives the record its
        six bytes hold, or the default record when the frame does not cover
        them. Returns the number of valid records written. */
    method DecodeSlots(frame: array<uint8>, length: nat, payloadAvailable: nat) returns (validCount: nat)
      requires Valid()
      requires length <= frame.Length && payloadAvailable == PayloadAvailable(length)
      modifies targets
      ensures Slots() == [SlotAt(frame[..], length, 0), SlotAt(frame[..], length, 1), SlotAt(frame[..], length, 2)]
      ensures validCount == CountValid(Slots())
    {
      validCount := 0;
      for i := 0 to SupportedTargets
        invariant forall k :: 0 <= k < i ==> targets[k] == SlotAt(frame[..], length, k)
        invariant validCount == CountValid(targets[..i])
      {
        var base := PayloadStart + i * 6;
        if base + SlotSize > PayloadStart + payloadAvailable {
          targets[i] := DefaultTarget;
        } else {
          var x := ToInt16(frame[base], frame[base + 1]);
          var y := ToInt16(frame[base + 2], frame[base + 3]);
          var speed := ToInt16(frame[base + 4], frame[base + 5]);
          var target := RadarTarget(!(x == 0 && y == 0 && speed == 0), x, y, speed);
          SlotAtFields(frame[..], length, i, base, x, y, speed);
          targets[i] := target;
          if target.valid {
            validCount := validCount + 1;
          }
        }
        assert targets[..i + 1] == targets[..i] + [targets[i]];
      }
      assert targets[..SupportedTargets] == targets[..];
    }

    /** read(): with `available` the bytes the source can deliver now, take
        as many as fit, then extract every complete frame. Returns the valid
        count of the last frame accepted during this call (0 if none) and the
        number of bytes taken from the source. */
    method Read(available: seq<uint8>) returns (validCount: nat, consumed: nat)
      requires Valid()
      modifies this, buffer, targets
      ensures Valid() && buffer == old(buffer) && targets == old(targets) && bound == old(bound)
      ensures !bound ==> validCount == 0 && consumed == 0 && len == old(len)
                         && buffer[..] == old(buffer[..]) && Slots() == old(Slots())
      ensures bound ==> consumed == Min(|available|, FrameBufferSize - old(len))
      ensures bound ==>
                var o := Extract(old(Contents()) + available[..consumed], old(Slots()), 0, old(Slots()), 0);
                Contents() == o.rest && Slots() == o.slots && validCount == o.lastValid
                && (o.accepted == 0 ==> validCount == 0)
                && (o.accepted > 0 ==> validCount == CountValid(o.lastSlots) && 1 <= validCount <= SupportedTargets)
      ensures validCount <= SupportedTargets
      ensures bound ==> len == 0 || (HeaderAt(Contents(), 0) && ExpectedFrameSize() > len)
    {
      if !bound {
        return 0, 0;
      }
      consumed := 0;
      while consumed < |available| && len < FrameBufferSize
        invariant Valid() && buffer == old(buffer) && targets == old(targets) && bound == old(bound)
        invariant consumed <= |available|
        invariant len == old(len) + consumed
        invariant Contents() == old(Contents()) + available[..consumed]
        invariant Slots() == old(Slots())
      {
        buffer[len] := available[consumed];
        len := len + 1;
        consumed := consumed + 1;
        assert available[..consumed] == available[..consumed - 1] + [available[consumed - 1]];
      }
      ghost var filled, slots := Contents(), Slots();
      validCount := ExtractFrames();
      ExtractResult(filled, slots, 0, slots, 0);
      ExtractExit(filled, slots, 0, slots, 0);
    }

    /** The loop of read() that counts the valid slots after an accepted frame. */
    method CountValidTargets() returns (n: nat)
      requires Valid()
      ensures n == CountValid(Slots())
    {
      n := 0;
      for k := 0 to targets.Length
        invariant n == CountValid(targets[..k])
      {
        if targets[k].valid {
          n := n + 1;
        }
        assert targets[..k + 1] == targets[..k] + [targets[k]];
      }
      assert targets[..targets.Length] == targets[..];
    }

    /** The frame-extraction loop of read(), which runs right after the fill
        loop. Returns the valid count of the last frame accepted (0 if none). */
    method ExtractFrames() returns (lastValidCount: nat)
      requires Valid()
      modifies this`len, buffer, targets
      ensures Valid()
      ensures var o := Extract(old(Contents()), old(Slots()), 0, old(Slots()), 0);
              Contents() == o.rest && Slots() == o.slots && lastValidCount == o.lastValid
    {
      lastValidCount := 0;
      ghost var lastSlots, accepted := Slots(), 0;
      ghost var goal := Extract(Contents(), Slots(), 0, Slots(), 0);
      while true
        invariant Valid()
        invariant |Slots()| == SupportedTargets
        invariant Extract(Contents(), Slots(), lastValidCount, lastSlots, accepted) == goal
        decreases len
      {
        var stop;
        stop, lastValidCount, lastSlots, accepted := ExtractIteration(lastValidCount, lastSlots, accepted);
        if stop {
          break;
        }
      }
    }

    /** One pass through the body of read()'s extraction loop, with `last`
        the result so far, `lastSlots` the slots the last accepted frame left
        and `accepted` the frames accepted so far. `stop` tells whether the
        pass ends in a break. */
    method ExtractIteration(last: nat, ghost lastSlots: seq<RadarTarget>, ghost accepted: nat)
      returns (stop: bool, newLast: nat, ghost newLastSlots: seq<RadarTarget>, ghost newAccepted: nat)
      requires Valid() && |Slots()| == SupportedTargets
      modifies this`len, buffer, targets
      ensures Valid() && |Slots()| == SupportedTargets
      ensures var s := ExtractStep(old(Contents()), old(Slots()), last, lastSlots, accepted);
              if s.Stop? then stop && Contents() == s.rest && Slots() == old(Slots())
                              && newLast == last && newLastSlots == lastSlots && newAccepted == accepted
              else !stop && Contents() == s.buf && Slots() == s.slots
                   && newLast == s.last && newLastSlots == s.lastSlots && newAccepted == s.accepted
    {
      newLast, newLastSlots, newAccepted := last, lastSlots, accepted;
      var h := FindHeaderIndex();
      if h.None? {
        len := 0;  // no header anywhere: drop the whole buffer
        return true, newLast, newLastSlots, newAccepted;
      }
      if h.value > 0 {
        ShiftBuffer(h.value);  // drop the noise before the header
        return false, newLast, newLastSlots, newAccepted;
      }
      var frameSize := ExpectedFrameSize();
      if frameSize == 0 {
        ShiftBuffer(1);  // unusable length: drop one byte and rescan
        return false, newLast, newLastSlots, newAccepted;
      }
      if frameSize > len {
        return true, newLast, newLastSlots, newAccepted;  // incomplete frame: wait for more bytes
      }
      DecodeFrameReadsPrefix(buffer[..], Contents(), frameSize, Slots());
      var ok := DecodeFrame(buffer, frameSize);
      if ok {
        newLast := CountValidTargets();
        newLastSlots, newAccepted := Slots(), accepted + 1;
      }
      ShiftBuffer(frameSize);
      stop := false;
    }
  }
}
