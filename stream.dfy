/** The older frame synchroniser and the stream walker of stream.cpp, on the
    header of header.h / header.cpp (free format rejected).

    `CMPEGHeader::gen` is not part of this model: it is taken to yield a
    header exactly when `MpegHeader.Make` of the word is valid. The Xing
    check `CXingHeader::gen` is the parameter `isXing`, and the first
    frame's `getFrameDataOffset()` is the parameter `frameDataOffset`.
    The source's ASSERTs, the unchecked reads and the division by the frame
    count become preconditions. */
module Stream {
  import Arith
  import Bytes
  import HeaderRaw
  import MpegHeader
  import Revisions
  import Sync

  /** CMPEGHeader::getSize(). */
  const HeaderSize: nat := 4
  /** Frames after the first one that verifyFrameSequence follows. */
  const HeaderSequenceLimit: nat := 2

  /** The header decoded from the word at `i`. */
  function HeaderAt(data: seq<bv8>, i: nat): (h: MpegHeader.Header)
    requires i + HeaderSize <= |data|
    ensures h.Wf() && h.header == Bytes.LoadWord(data, i)
  {
    MpegHeader.Make(Bytes.LoadWord(data, i))
  }

  /** What verifyFrameSequence does from `offset` with `n` frames still to
      follow: it rejects, accepts, or aborts in getNextFrame's ASSERT on a
      copyrighted header. */
  datatype Verdict = Accepted | Rejected | Aborted

  function SequenceVerdict(data: seq<bv8>, offset: nat, n: nat): (v: Verdict)
    ensures offset + HeaderSize > |data| ==> v == Rejected
    ensures v != Rejected ==> offset + HeaderSize <= |data| && HeaderAt(data, offset).valid
    ensures v == Accepted ==> !HeaderAt(data, offset).IsCopyrighted()
    decreases n
  {
    if offset + HeaderSize > |data| then Rejected
    else
      var h := HeaderAt(data, offset);
      if !h.valid then Rejected
      else if h.IsCopyrighted() then Aborted
      else if n == 0 then Accepted
      else SequenceVerdict(data, offset + h.GetNextFrame(), n - 1)
  }

  /** The verdict on the suffix starting at `k`. */
  function VerdictAt(data: seq<bv8>, k: nat): (v: Verdict)
    requires k <= |data|
  {
    SequenceVerdict(data[k..], 0, HeaderSequenceLimit)
  }

  /** verifyFrameSequence: valid headers at offset 0 and at the next two
      frames, each with its 4 bytes inside the buffer. */
  method VerifyFrameSequence(data: seq<bv8>) returns (ok: bool)
    requires SequenceVerdict(data, 0, HeaderSequenceLimit) != Aborted
    ensures ok <==> SequenceVerdict(data, 0, HeaderSequenceLimit) == Accepted
  {
    var n: nat, offset: nat := HeaderSequenceLimit, 0;
    while offset + HeaderSize <= |data|
      invariant SequenceVerdict(data, 0, HeaderSequenceLimit) == SequenceVerdict(data, offset, n)
      decreases n
    {
      var h := HeaderAt(data, offset);
      if !h.valid {
        break;
      }
      VerdictStep(data, offset, n);
      offset := offset + h.GetNextFrame();
      if n == 0 {
        return true;
      }
      n := n - 1;
    }
    return false;
  }

  /** One turn of verifyFrameSequence on a valid header that does not abort. */
  lemma VerdictStep(data: seq<bv8>, offset: nat, n: nat)
    requires offset + HeaderSize <= |data| && HeaderAt(data, offset).valid
    requires SequenceVerdict(data, offset, n) != Aborted
    ensures !HeaderAt(data, offset).IsCopyrighted()
    ensures SequenceVerdict(data, offset, n) ==
      if n == 0 then Accepted else SequenceVerdict(data, offset + HeaderAt(data, offset).GetNextFrame(), n - 1)
  {
  }

  /** An accepted sequence needs a whole frame and a header after it. */
  lemma {:induction false} AcceptedLeavesRoom(data: seq<bv8>, offset: nat, n: nat)
    requires SequenceVerdict(data, offset, n) == Accepted
    ensures offset + HeaderSize <= |data| && HeaderAt(data, offset).valid
    ensures n > 0 ==> offset + 24 + HeaderSize <= |data|
    decreases n
  {
    if n > 0 {
      var h := HeaderAt(data, offset);
      MpegHeader.FrameSizeBounds(h.header);
      AcceptedLeavesRoom(data, offset + h.GetNextFrame(), n - 1);
    }
  }

  /** A header that is not valid is rejected wherever it is. */
  lemma InvalidIsRejected(data: seq<bv8>, k: nat)
    requires k + HeaderSize <= |data| && !HeaderAt(data, k).valid
    ensures VerdictAt(data, k) == Rejected
  {
    Bytes.LoadWordSuffix(data, k, 0);
  }

  /** findHeader: the least valid position `i < |data| - 4`, or `|data|`
      when there is none; position `|data| - 4` is never looked at. The
      caller must supply at least 4 bytes, or the limit wraps around. */
  method FindHeader(data: seq<bv8>) returns (i: nat)
    requires HeaderSize <= |data|
    ensures i == |data| || (i < |data| - HeaderSize && HeaderAt(data, i).valid)
    ensures forall j :: 0 <= j < i && j < |data| - HeaderSize ==> !HeaderAt(data, j).valid
  {
    var limit := |data| - HeaderSize;
    i := 0;
    while i < limit
      invariant i <= limit
      invariant forall j :: 0 <= j < i ==> !HeaderAt(data, j).valid
    {
      if HeaderAt(data, i).valid {
        break;
      }
      i := i + 1;
    }
    if i == limit {
      i := |data|;
    }
  }

  /** findHeader from `offset` stops at or before a valid header at `j`
      that it can see. */
  lemma ScanStopsAtValid(data: seq<bv8>, offset: nat, j: nat, skip: nat)
    requires offset <= j && j + HeaderSize < |data| && HeaderAt(data, j).valid
    requires forall i :: 0 <= i < skip && i < |data| - offset - HeaderSize ==> !HeaderAt(data[offset..], i).valid
    ensures skip <= j - offset
  {
    Bytes.LoadWordSuffix(data, offset, j - offset);
    assert HeaderAt(data[offset..], j - offset).valid;
  }

  /** Every position findHeader skips is rejected. */
  lemma SkippedAreRejected(data: seq<bv8>, offset: nat, skip: nat)
    requires offset + skip + HeaderSize < |data|
    requires forall i :: 0 <= i < skip && i < |data| - offset - HeaderSize ==> !HeaderAt(data[offset..], i).valid
    ensures forall k :: offset <= k < offset + skip ==> VerdictAt(data, k) == Rejected
  {
    forall k | offset <= k < offset + skip
      ensures VerdictAt(data, k) == Rejected
    {
      Bytes.LoadWordSuffix(data, offset, k - offset);
      assert !HeaderAt(data[offset..], k - offset).valid;
      InvalidIsRejected(data, k);
    }
  }

  /** One findHeader step from `offset` never passes the accepted position
      `j`, and every position it skips holds no valid header, so no frame
      sequence starts there; the position it stops at does not abort. */
  lemma ScanSkipsNoSequence(data: seq<bv8>, offset: nat, j: nat, skip: nat)
    requires offset <= j <= |data| && VerdictAt(data, j) == Accepted
    requires forall k :: 0 <= k < j ==> VerdictAt(data, k) != Aborted
    requires forall k :: 0 <= k < offset ==> VerdictAt(data, k) != Accepted
    requires forall i :: 0 <= i < skip && i < |data| - offset - HeaderSize ==> !HeaderAt(data[offset..], i).valid
    ensures offset + skip <= j
    ensures SequenceVerdict(data[offset + skip..], 0, HeaderSequenceLimit) != Aborted
    ensures forall k :: 0 <= k < offset + skip ==> VerdictAt(data, k) != Accepted
  {
    AcceptedLeavesRoom(data[j..], 0, HeaderSequenceLimit);
    Bytes.LoadWordSuffix(data, j, 0);
    ScanStopsAtValid(data, offset, j, skip);
    SkippedAreRejected(data, offset, skip);
    NoAbortUpTo(data, j, offset + skip);
  }

  /** Up to an accepted position with no abort before it, nothing aborts. */
  lemma NoAbortUpTo(data: seq<bv8>, j: nat, offset: nat)
    requires offset <= j <= |data| && VerdictAt(data, j) == Accepted
    requires forall k :: 0 <= k < j ==> VerdictAt(data, k) != Aborted
    ensures VerdictAt(data, offset) != Aborted
  {
  }

  /** A rejected position extends the run of positions that are not
      accepted, and lies before the accepted position `j`. */
  lemma NotAcceptedThrough(data: seq<bv8>, offset: nat, j: nat)
    requires offset <= j <= |data| && VerdictAt(data, j) == Accepted
    requires SequenceVerdict(data[offset..], 0, HeaderSequenceLimit) != Accepted
    requires forall k :: 0 <= k < offset ==> VerdictAt(data, k) != Accepted
    ensures offset < j
    ensures forall k :: 0 <= k < offset + 1 ==> VerdictAt(data, k) != Accepted
  {
  }

  /** Some position is accepted and no earlier one aborts: what
      calcFirstHeaderOffset needs, since its loop has no other way out. */
  predicate HasSequence(data: seq<bv8>)
  {
    exists j :: 0 <= j <= |data| && VerdictAt(data, j) == Accepted &&
      forall k :: 0 <= k < j ==> VerdictAt(data, k) != Aborted
  }

  /** A position that HasSequence promises. */
  lemma SequenceWitness(data: seq<bv8>) returns (j: nat)
    requires HasSequence(data)
    ensures j <= |data| && VerdictAt(data, j) == Accepted
    ensures forall k :: 0 <= k < j ==> VerdictAt(data, k) != Aborted
  {
    j :| 0 <= j <= |data| && VerdictAt(data, j) == Accepted &&
      forall k :: 0 <= k < j ==> VerdictAt(data, k) != Aborted;
  }

  /** calcFirstHeaderOffset: the least position at which a frame sequence is
      accepted. Its final `return f_size` cannot be reached. */
  method CalcFirstHeaderOffset(data: seq<bv8>) returns (offset: nat)
    requires HasSequence(data)
    ensures offset < |data| && VerdictAt(data, offset) == Accepted
    ensures forall k :: 0 <= k < offset ==> VerdictAt(data, k) != Accepted
  {
    ghost var j := SequenceWitness(data);
    offset := 0;
    while true
      invariant offset <= j
      invariant forall k :: 0 <= k < offset ==> VerdictAt(data, k) != Accepted
      decreases j - offset
    {
      var skip := FindHeader(data[offset..]);
      ScanSkipsNoSequence(data, offset, j, skip);
      offset := offset + skip;
      var found := VerifyFrameSequence(data[offset..]);
      if found {
        return;
      }
      NotAcceptedThrough(data, offset, j);
      offset := offset + 1;
    }
  }

  /** gen: a stream exists exactly when verifyFrameSequence accepts the
      buffer, and it is the stream the constructor builds from it. */
  method Gen(data: seq<bv8>, isXing: seq<bv8> -> bool, frameDataOffset: nat) returns (s: MpegStream?)
    requires SequenceVerdict(data, 0, HeaderSequenceLimit) != Aborted
    requires SequenceVerdict(data, 0, HeaderSequenceLimit) == Accepted ==>
      Constructible(data, isXing, frameDataOffset)
    ensures s == null <==> SequenceVerdict(data, 0, HeaderSequenceLimit) != Accepted
    ensures s != null ==> fresh(s) && s.Valid() && s.size == |data|
    ensures s != null ==>
      var w := WalkFrom(data, HeaderAt(data, 0), WalkStart(data, isXing, frameDataOffset));
      && s.offset == WalkStart(data, isXing, frameDataOffset)
      && s.frames == |w.starts|
      && s.abr == SumKbps(data, w.starts) / |w.starts|
      && s.data == data[..w.end]
  {
    var ok := VerifyFrameSequence(data);
    if !ok {
      return null;
    }
    s := new MpegStream(data, isXing, frameDataOffset);
  }

  /** The outcome of the constructor's frame walk from `offset`: the start of
      every frame counted and the offset of the word that ends the walk, or
      a fault where the source would read outside the buffer or stop in one
      of its ASSERTs. */
  datatype Walk = Walked(starts: seq<nat>, end: nat) | Fault

  function WalkFrom(data: seq<bv8>, first: MpegHeader.Header, offset: nat): (w: Walk)
    ensures w.Walked? ==> offset <= w.end && w.end + HeaderSize <= |data|
    ensures w.Walked? ==> forall i :: 0 <= i < |w.starts| ==> offset <= w.starts[i] && w.starts[i] + HeaderSize <= |data|
    decreases |data| - offset
  {
    if offset + HeaderSize > |data| then Fault
    else
      var h := HeaderAt(data, offset);
      if !h.valid then Walked([], offset)
      else if !h.Equals(first) || h.IsCopyrighted() then Fault
      else
        MpegHeader.FrameSizeBounds(h.header);
        var next := h.GetNextFrame();
        if offset + next > |data| then Fault
        else match WalkFrom(data, first, offset + next)
          case Fault => Fault
          case Walked(starts, end) => Walked([offset] + starts, end)
  }

  /** A frame the walk counts: a valid header, equal to the first one under
      the stream mask, not copyrighted, whose frame lies inside the buffer. */
  predicate CountedFrame(data: seq<bv8>, first: MpegHeader.Header, p: nat)
  {
    && p + HeaderSize <= |data|
    && var h := HeaderAt(data, p);
    && h.valid && h.Equals(first) && !h.IsCopyrighted()
    && p + h.GetNextFrame() <= |data|
  }

  /** Where the frame after a counted frame starts. */
  function NextStart(data: seq<bv8>, first: MpegHeader.Header, p: nat): (q: nat)
    requires CountedFrame(data, first, p)
    ensures p + 24 <= q <= |data|
  {
    MpegHeader.FrameSizeBounds(HeaderAt(data, p).header);
    p + HeaderAt(data, p).GetNextFrame()
  }

  /** One step of the walk: a valid header is counted and the walk goes on
      at the next frame. */
  lemma WalkStep(data: seq<bv8>, first: MpegHeader.Header, offset: nat)
    requires WalkFrom(data, first, offset).Walked?
    requires HeaderAt(data, offset).valid
    ensures CountedFrame(data, first, offset)
    ensures NextStart(data, first, offset) == offset + HeaderAt(data, offset).GetNextFrame()
    ensures var rest := WalkFrom(data, first, NextStart(data, first, offset));
      && rest.Walked?
      && WalkFrom(data, first, offset) == Walked([offset] + rest.starts, rest.end)
  {
  }

  /** A completed walk ends on an invalid header inside the buffer; it
      starts at `offset`, with no frame when that header is invalid. */
  lemma {:induction false} WalkEnds(data: seq<bv8>, first: MpegHeader.Header, offset: nat)
    requires WalkFrom(data, first, offset).Walked?
    ensures var w := WalkFrom(data, first, offset);
      && !HeaderAt(data, w.end).valid
      && (|w.starts| == 0 <==> w.end == offset)
      && (|w.starts| > 0 ==> w.starts[0] == offset)
    decreases |data| - offset
  {
    if HeaderAt(data, offset).valid {
      WalkStep(data, first, offset);
      WalkEnds(data, first, NextStart(data, first, offset));
    }
  }

  /** A completed walk is a chain of frames: every frame counted passes the
      checks of the loop, each one ends where the next one starts, and the
      last one ends where the walk ends. */
  lemma WalkIsChain(data: seq<bv8>, first: MpegHeader.Header, offset: nat)
    requires WalkFrom(data, first, offset).Walked?
    ensures var w := WalkFrom(data, first, offset);
      forall i :: 0 <= i < |w.starts| ==> CountedFrame(data, first, w.starts[i])
    ensures var w := WalkFrom(data, first, offset);
      forall i :: 0 <= i < |w.starts| - 1 ==> NextStart(data, first, w.starts[i]) == w.starts[i + 1]
    ensures var w := WalkFrom(data, first, offset);
      |w.starts| > 0 ==> NextStart(data, first, w.starts[|w.starts| - 1]) == w.end
  {
    WalkFramesCounted(data, first, offset);
    WalkFramesLinked(data, first, offset);
    WalkLastFrameEnds(data, first, offset);
  }

  /** Every frame a completed walk counts passes the checks of the loop. */
  lemma {:induction false} WalkFramesCounted(data: seq<bv8>, first: MpegHeader.Header, offset: nat)
    requires WalkFrom(data, first, offset).Walked?
    ensures var w := WalkFrom(data, first, offset);
      forall i :: 0 <= i < |w.starts| ==> CountedFrame(data, first, w.starts[i])
    decreases |data| - offset
  {
    if HeaderAt(data, offset).valid {
      WalkStep(data, first, offset);
      var next := NextStart(data, first, offset);
      WalkFramesCounted(data, first, next);
      var rest := WalkFrom(data, first, next);
      var w := WalkFrom(data, first, offset);
      assert w.starts == [offset] + rest.starts;
      forall i | 0 <= i < |w.starts|
        ensures CountedFrame(data, first, w.starts[i])
      {
        if i > 0 {
          assert w.starts[i] == rest.starts[i - 1];
        }
      }
    }
  }

  /** Each frame of a completed walk ends where the next one starts. */
  lemma {:induction false} WalkFramesLinked(data: seq<bv8>, first: MpegHeader.Header, offset: nat)
    requires WalkFrom(data, first, offset).Walked?
    ensures var w := WalkFrom(data, first, offset);
      forall i :: 0 <= i < |w.starts| - 1 ==>
        CountedFrame(data, first, w.starts[i]) && NextStart(data, first, w.starts[i]) == w.starts[i + 1]
    decreases |data| - offset
  {
    if HeaderAt(data, offset).valid {
      WalkStep(data, first, offset);
      var next := NextStart(data, first, offset);
      WalkFramesLinked(data, first, next);
      WalkEnds(data, first, next);
      var rest := WalkFrom(data, first, next);
      var w := WalkFrom(data, first, offset);
      assert w.starts == [offset] + rest.starts;
      forall i | 0 <= i < |w.starts| - 1
        ensures CountedFrame(data, first, w.starts[i]) && NextStart(data, first, w.starts[i]) == w.starts[i + 1]
      {
        if i > 0 {
          assert w.starts[i] == rest.starts[i - 1] && w.starts[i + 1] == rest.starts[i];
        } else {
          assert w.starts[1] == rest.starts[0] == next;
        }
      }
    }
  }

  /** The last frame of a completed walk ends where the walk ends. */
  lemma {:induction false} WalkLastFrameEnds(data: seq<bv8>, first: MpegHeader.Header, offset: nat)
    requires WalkFrom(data, first, offset).Walked?
    ensures var w := WalkFrom(data, first, offset);
      |w.starts| > 0 ==>
        CountedFrame(data, first, w.starts[|w.starts| - 1]) &&
        NextStart(data, first, w.starts[|w.starts| - 1]) == w.end
    decreases |data| - offset
  {
    if HeaderAt(data, offset).valid {
      WalkStep(data, first, offset);
      var next := NextStart(data, first, offset);
      WalkLastFrameEnds(data, first, next);
      WalkEnds(data, first, next);
      var rest := WalkFrom(data, first, next);
      var w := WalkFrom(data, first, offset);
      assert w.starts == [offset] + rest.starts && w.end == rest.end;
      if |rest.starts| > 0 {
        assert w.starts[|w.starts| - 1] == rest.starts[|rest.starts| - 1];
      }
    }
  }

  /** Kilobits per second of the frame at `p`, as added to `m_abr`. */
  function FrameKbps(data: seq<bv8>, p: nat): (kbps: nat)
    requires p + HeaderSize <= |data|
    ensures HeaderAt(data, p).valid ==> 8 <= kbps <= 448
  {
    HeaderAt(data, p).bitrate / 1000
  }

  /** The kilobits per second of the frames starting at `starts`, summed. */
  function SumKbps(data: seq<bv8>, starts: seq<nat>): (total: nat)
    requires forall i :: 0 <= i < |starts| ==> starts[i] + HeaderSize <= |data|
  {
    if |starts| == 0 then 0
    else SumKbps(data, starts[..|starts| - 1]) + FrameKbps(data, starts[|starts| - 1])
  }

  /** The sum lies between 8 and 448 kbps per frame. */
  lemma {:induction false} SumKbpsBounds(data: seq<bv8>, starts: seq<nat>)
    requires forall i :: 0 <= i < |starts| ==> starts[i] + HeaderSize <= |data| && HeaderAt(data, starts[i]).valid
    ensures 8 * |starts| <= SumKbps(data, starts) <= 448 * |starts|
  {
    if |starts| > 0 {
      var init := starts[..|starts| - 1];
      assert forall i :: 0 <= i < |init| ==> init[i] == starts[i];
      SumKbpsBounds(data, init);
      assert HeaderAt(data, starts[|starts| - 1]).valid;
    }
  }

  /** Frames that all have the same bitrate sum to that bitrate per frame. */
  lemma {:induction false} SumKbpsConstant(data: seq<bv8>, starts: seq<nat>, kbps: nat)
    requires forall i :: 0 <= i < |starts| ==> starts[i] + HeaderSize <= |data| && FrameKbps(data, starts[i]) == kbps
    ensures SumKbps(data, starts) == kbps * |starts|
  {
    if |starts| > 0 {
      var init := starts[..|starts| - 1];
      assert forall i :: 0 <= i < |init| ==> init[i] == starts[i];
      SumKbpsConstant(data, init, kbps);
      assert FrameKbps(data, starts[|starts| - 1]) == kbps;
      Arith.MulSucc(kbps, |init|);
    }
  }

  /** The first frame is a Xing frame, which the walk skips: the first
      frame's data plus its size lies inside the buffer and `isXing`
      recognises the bytes at the frame data offset. */
  predicate XingSkipped(data: seq<bv8>, isXing: seq<bv8> -> bool, frameDataOffset: nat)
    requires HeaderSize <= |data| && HeaderAt(data, 0).valid
  {
    frameDataOffset + HeaderAt(data, 0).GetFrameSize() < |data| && isXing(data[frameDataOffset..])
  }

  /** Where the walk starts: after the first frame when it is a Xing frame,
      at 0 otherwise. */
  function WalkStart(data: seq<bv8>, isXing: seq<bv8> -> bool, frameDataOffset: nat): (start: nat)
    requires HeaderSize <= |data| && HeaderAt(data, 0).valid
    requires XingSkipped(data, isXing, frameDataOffset) ==> !HeaderAt(data, 0).IsCopyrighted()
  {
    if XingSkipped(data, isXing, frameDataOffset) then HeaderAt(data, 0).GetNextFrame() else 0
  }

  /** What the constructor needs to run to the end: a valid first header,
      a skipped Xing frame that is not copyrighted, a walk that stays inside
      the buffer and passes every ASSERT, and at least one counted frame
      (the average divides by their number). */
  predicate Constructible(data: seq<bv8>, isXing: seq<bv8> -> bool, frameDataOffset: nat)
  {
    && HeaderSize <= |data|
    && HeaderAt(data, 0).valid
    && (XingSkipped(data, isXing, frameDataOffset) ==> !HeaderAt(data, 0).IsCopyrighted())
    && var w := WalkFrom(data, HeaderAt(data, 0), WalkStart(data, isXing, frameDataOffset));
       w.Walked? && |w.starts| > 0
  }

  /** CMPEGStream: the frames walked from the first data frame on. */
  class MpegStream {
    /** m_size: length of the buffer the stream was built from. */
    var size: nat
    /** m_offset: offset of the first data frame (after a Xing frame). */
    var offset: nat
    /** m_frames: number of frames counted. */
    var frames: nat
    /** m_abr: average bitrate in kbps. */
    var abr: nat
    /** m_data: the bytes up to the end of the last frame counted. */
    var data: seq<bv8>

    /** At least one frame, an average bitrate a header can have, and the
        first data frame inside the copied bytes. */
    predicate Valid()
      reads this
    {
      frames > 0 && 8 <= abr <= 448 && offset < |data| <= size
    }

    /** The constructor's walk: skip a Xing frame, then count consecutive
        valid frames, each matching the first header, and average their
        bitrates. */
    constructor (fData: seq<bv8>, isXing: seq<bv8> -> bool, frameDataOffset: nat)
      requires Constructible(fData, isXing, frameDataOffset)
      ensures var first := HeaderAt(fData, 0);
        var w := WalkFrom(fData, first, WalkStart(fData, isXing, frameDataOffset));
        && size == |fData|
        && offset == WalkStart(fData, isXing, frameDataOffset)
        && frames == |w.starts|
        && abr == SumKbps(fData, w.starts) / |w.starts|
        && data == fData[..w.end]
      ensures Valid()
    {
      size := |fData|;
      offset := 0;
      abr := 0;
      frames := 0;
      new;
      var first := HeaderAt(fData, 0);
      var pos := SkipXingFrame(fData, isXing, frameDataOffset);
      var end := ParseFrames(fData, first, pos);
      WalkAverage(fData, first, pos);
      data, abr := fData[..end], abr / frames;
    }

    /** The Xing part of the constructor: when the first frame is a Xing
        frame, the walk and the first data frame start after it. */
    method SkipXingFrame(fData: seq<bv8>, isXing: seq<bv8> -> bool, frameDataOffset: nat) returns (pos: nat)
      requires HeaderSize <= |fData| && HeaderAt(fData, 0).valid && size == |fData| && offset == 0
      requires XingSkipped(fData, isXing, frameDataOffset) ==> !HeaderAt(fData, 0).IsCopyrighted()
      modifies this`offset
      ensures offset == pos == WalkStart(fData, isXing, frameDataOffset)
    {
      var first := HeaderAt(fData, 0);
      pos := 0;
      if frameDataOffset + first.GetFrameSize() < size {
        if isXing(fData[frameDataOffset..]) {
          pos := pos + first.GetNextFrame();
          offset := offset + pos;
        }
      }
    }

    /** The loop of the constructor: count the consecutive valid frames
        from `start` on and add up their kilobits per second. Returns the
        offset of the word that ends the walk. */
    method ParseFrames(fData: seq<bv8>, first: MpegHeader.Header, start: nat) returns (end: nat)
      requires WalkFrom(fData, first, start).Walked?
      requires frames == 0 && abr == 0
      modifies this`frames, this`abr
      ensures var w := WalkFrom(fData, first, start);
        && frames == |w.starts| && abr == SumKbps(fData, w.starts) && end == w.end
    {
      var pos := start;
      ghost var w := WalkFrom(fData, first, start);
      ghost var counted: seq<nat> := [];
      while true
        invariant WalkSplit(fData, first, w, counted, pos)
        invariant frames == |counted| && abr == SumKbps(fData, counted)
        decreases |fData| - pos
      {
        ParseDone(fData, first, w, counted, pos);
        var h := HeaderAt(fData, pos);
        if !h.valid {
          break;
        }
        ParseStep(fData, first, w, counted, pos);
        var next := h.GetNextFrame();
        frames := frames + 1;
        abr := abr + FrameKbps(fData, pos);
        counted := counted + [pos];
        pos := pos + next;
      }
      return pos;
    }

    /** getFirstDataFrameOffset: the first frame counted starts here, inside
        the copied bytes. */
    function GetFirstDataFrameOffset(): (r: nat)
      requires Valid()
      reads this
      ensures r < |data|
    {
      offset
    }

    /** getFrameCount: at least one frame. */
    function GetFrameCount(): (n: nat)
      requires Valid()
      reads this
      ensures n > 0
    {
      frames
    }

    /** getBitrate: the average lies in the range of a single frame's bitrate. */
    function GetBitrate(): (kbps: nat)
      requires Valid()
      reads this
      ensures 8 <= kbps <= 448
    {
      abr
    }
  }

  /** Midway through the constructor's loop: the frames at `counted` have
      been counted, and the rest of the walk `w` goes on from `pos`. */
  predicate WalkSplit(data: seq<bv8>, first: MpegHeader.Header, w: Walk, counted: seq<nat>, pos: nat)
  {
    && WalkFrom(data, first, pos).Walked?
    && w == Walked(counted + WalkFrom(data, first, pos).starts, WalkFrom(data, first, pos).end)
    && forall i :: 0 <= i < |counted| ==> counted[i] + HeaderSize <= |data|
  }

  /** One turn of the constructor's loop on a valid header: the frame is
      counted, its kbps are added to the sum, and the rest of the walk
      goes on from the next frame. */
  lemma ParseStep(data: seq<bv8>, first: MpegHeader.Header, w: Walk, counted: seq<nat>, pos: nat)
    requires WalkSplit(data, first, w, counted, pos) && HeaderAt(data, pos).valid
    ensures !HeaderAt(data, pos).IsCopyrighted()
    ensures pos < pos + HeaderAt(data, pos).GetNextFrame() <= |data|
    ensures WalkSplit(data, first, w, counted + [pos], pos + HeaderAt(data, pos).GetNextFrame())
    ensures SumKbps(data, counted + [pos]) == SumKbps(data, counted) + FrameKbps(data, pos)
  {
    WalkSplitStep(data, first, w, counted, pos);
    SumKbpsAppend(data, counted, pos);
  }

  /** The walk part of ParseStep. */
  lemma WalkSplitStep(data: seq<bv8>, first: MpegHeader.Header, w: Walk, counted: seq<nat>, pos: nat)
    requires WalkSplit(data, first, w, counted, pos) && HeaderAt(data, pos).valid
    ensures !HeaderAt(data, pos).IsCopyrighted()
    ensures pos < pos + HeaderAt(data, pos).GetNextFrame() <= |data|
    ensures WalkSplit(data, first, w, counted + [pos], pos + HeaderAt(data, pos).GetNextFrame())
  {
    WalkStep(data, first, pos);
    var next := NextStart(data, first, pos);
    var rest := WalkFrom(data, first, next);
    var grown := counted + [pos];
    assert WalkFrom(data, first, pos).starts == [pos] + rest.starts;
    assert counted + ([pos] + rest.starts) == grown + rest.starts;
    assert w == Walked(grown + rest.starts, rest.end);
    forall i | 0 <= i < |grown|
      ensures grown[i] + HeaderSize <= |data|
    {
      if i < |counted| {
        assert grown[i] == counted[i];
      }
    }
  }

  /** Adding a frame at the end adds its kbps to the sum. */
  lemma SumKbpsAppend(data: seq<bv8>, counted: seq<nat>, pos: nat)
    requires forall i :: 0 <= i < |counted| ==> counted[i] + HeaderSize <= |data|
    requires pos + HeaderSize <= |data|
    ensures forall i :: 0 <= i < |counted + [pos]| ==> (counted + [pos])[i] + HeaderSize <= |data|
    ensures SumKbps(data, counted + [pos]) == SumKbps(data, counted) + FrameKbps(data, pos)
  {
    assert (counted + [pos])[..|counted|] == counted;
  }

  /** The loop stops on an invalid header: every frame has been counted. */
  lemma ParseDone(data: seq<bv8>, first: MpegHeader.Header, w: Walk, counted: seq<nat>, pos: nat)
    requires WalkSplit(data, first, w, counted, pos)
    ensures pos + HeaderSize <= |data|
    ensures !HeaderAt(data, pos).valid ==> w == Walked(counted, pos)
  {
  }

  /** The average over valid frames lies between 8 and 448 kbps. */
  lemma Average(data: seq<bv8>, starts: seq<nat>)
    requires |starts| > 0
    requires forall i :: 0 <= i < |starts| ==> starts[i] + HeaderSize <= |data| && HeaderAt(data, starts[i]).valid
    ensures 8 <= SumKbps(data, starts) / |starts| <= 448
  {
    SumKbpsBounds(data, starts);
    Arith.QuotientBetween(SumKbps(data, starts), |starts|, 8, 448);
  }

  /** A walk that counts frames ends after its start, and the average of
      their bitrates lies between 8 and 448 kbps. */
  lemma WalkAverage(data: seq<bv8>, first: MpegHeader.Header, offset: nat)
    requires WalkFrom(data, first, offset).Walked? && |WalkFrom(data, first, offset).starts| > 0
    ensures var w := WalkFrom(data, first, offset);
      && offset < w.end
      && 8 <= SumKbps(data, w.starts) / |w.starts| <= 448
  {
    WalkEnds(data, first, offset);
    WalkIsChain(data, first, offset);
    Average(data, WalkFrom(data, first, offset).starts);
  }

  /** The average of a constant-bitrate stream is that bitrate. */
  lemma ConstantBitrateAverage(data: seq<bv8>, starts: seq<nat>, kbps: nat)
    requires |starts| > 0
    requires forall i :: 0 <= i < |starts| ==> starts[i] + HeaderSize <= |data| && FrameKbps(data, starts[i]) == kbps
    ensures SumKbps(data, starts) / |starts| == kbps
  {
    SumKbpsConstant(data, starts, kbps);
    Arith.DivAtLeast(kbps * |starts|, |starts|, kbps);
    Arith.DivAtMost(kbps * |starts|, |starts|, kbps);
  }

  /** A frame sequence the older verifyFrameSequence accepts (the header
      and `n` frames after it) is one the newer one accepts too, whatever
      the free-format probe: every header involved has a bitrate, so both
      revisions step by the same frame size. */
  lemma {:induction false} AcceptedIsChained(data: seq<bv8>, probe: seq<bv8> -> nat, offset: nat, n: nat)
    requires SequenceVerdict(data, offset, n) == Accepted
    ensures Sync.Chained(data, probe, offset, n + 1)
    decreases n
  {
    var h := HeaderAt(data, offset);
    Revisions.OlderIsNewerWithoutFree(h.header);
    assert Sync.ValidAt(data, offset) && !HeaderRaw.Header(h.header).IsFreeBitrate();
    if n > 0 {
      assert Sync.FrameSize(h.header) == h.GetNextFrame();
      AcceptedIsChained(data, probe, offset + h.GetNextFrame(), n - 1);
    }
  }

  /** The two synchronisers part on free format: three free-format headers
      4 bytes apart form a sequence for the newer one and are rejected by
      the older one. */
  lemma FreeFormatSplitsSynchronisers()
    ensures var data := Bytes.StoreWord(0x1B00FBFF) + Bytes.StoreWord(0x1B04FBFF) + Bytes.StoreWord(0x1B08FBFF);
      && Sync.Chained(data, _ => 4, 0, Sync.HeadersToVerify)
      && SequenceVerdict(data, 0, HeaderSequenceLimit) == Rejected
  {
    var data := Bytes.StoreWord(0x1B00FBFF) + Bytes.StoreWord(0x1B04FBFF) + Bytes.StoreWord(0x1B08FBFF);
    Sync.SequenceIgnoresStreamMismatch();
    Bytes.LoadStore(0x1B00FBFF);
    assert Bytes.LoadWord(data, 0) == 0x1B00FBFF;
    Revisions.FreeFormatSplitsRevisions();
  }
}
