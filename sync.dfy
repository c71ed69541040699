/** The frame synchroniser of mpeg.cpp (newer revision): find the first
    offset of a buffer at which three chained frame headers are valid.

    The header class this file calls is not part of this model. As in
    header_raw.h, a header is valid when `HeaderRaw.Header.IsValid` holds
    (free format included); the frame size of a header with a bitrate is the
    formula of header.cpp (`MpegHeader.Header.GetFrameSize`). The size of a
    free-format frame comes from a probe of the bytes from the frame on
    (`CHeader::calcFrameSize`, not part of this model), passed in as `probe`,
    whose 0 means that no size was found. */
module Sync {
  import Bytes
  import HeaderRaw
  import MpegHeader
  import Revisions

  /** CHeader::getSize(). */
  const HeaderSize: nat := 4
  /** Headers that must chain up before an offset is accepted. */
  const HeadersToVerify: nat := 3

  /** CHeader::isValid of the word at `i`. */
  predicate ValidAt(data: seq<bv8>, i: nat)
    requires i + HeaderSize <= |data|
  {
    HeaderRaw.Header(Bytes.LoadWord(data, i)).IsValid()
  }

  /** CHeader::getFrameSize of a header with a bitrate: at least 24 bytes. */
  function FrameSize(raw: bv32): (n: nat)
    requires HeaderRaw.Header(raw).IsValid() && !HeaderRaw.Header(raw).IsFreeBitrate()
    ensures 24 <= n <= 2881
  {
    Revisions.OlderIsNewerWithoutFree(raw);
    MpegHeader.FrameSizeBounds(raw);
    MpegHeader.Make(raw).GetFrameSize()
  }

  /** The `n` headers from `offset` on, each one frame after the previous
      one, are all inside the buffer and valid; a free-format frame is as
      long as the probe says and fails when the probe finds nothing. The
      headers are not compared with each other. */
  predicate Chained(data: seq<bv8>, probe: seq<bv8> -> nat, offset: nat, n: nat)
    ensures Chained(data, probe, offset, n) && 0 < n ==> offset + HeaderSize <= |data| && ValidAt(data, offset)
    ensures Chained(data, probe, offset, n) && 1 < n ==> offset + HeaderSize < |data|
    decreases n
  {
    n == 0 ||
    (offset + HeaderSize <= |data| && ValidAt(data, offset) &&
     var raw := Bytes.LoadWord(data, offset);
     if HeaderRaw.Header(raw).IsFreeBitrate() then
       var size := probe(data[offset..]);
       size != 0 && Chained(data, probe, offset + size, n - 1)
     else
       Chained(data, probe, offset + FrameSize(raw), n - 1))
  }

  /** findHeader: the least offset `i <= |data| - 4` whose word is a valid
      header, or `|data|` when there is none (always for fewer than 4 bytes). */
  method FindHeader(data: seq<bv8>) returns (i: nat)
    ensures i <= |data|
    ensures i < |data| ==> i + HeaderSize <= |data| && ValidAt(data, i)
    ensures forall j :: 0 <= j < i && j + HeaderSize <= |data| ==> !ValidAt(data, j)
  {
    if |data| < HeaderSize {
      return |data|;
    }
    var limit := |data| - HeaderSize;
    i := 0;
    while i <= limit
      invariant i <= limit + 1
      invariant forall j :: 0 <= j < i ==> !ValidAt(data, j)
    {
      if ValidAt(data, i) {
        return;
      }
      i := i + 1;
    }
    return |data|;
  }

  /** verifyFrameSequence: three chained valid headers from offset 0. */
  method VerifyFrameSequence(data: seq<bv8>, probe: seq<bv8> -> nat) returns (ok: bool)
    ensures ok == Chained(data, probe, 0, HeadersToVerify)
  {
    var nFrames: nat, offset: nat := HeadersToVerify, 0;
    ghost var verdict := Chained(data, probe, 0, HeadersToVerify);
    while nFrames != 0
      invariant verdict == Chained(data, probe, offset, nFrames)
    {
      if offset + HeaderSize > |data| {
        return false;
      }
      if !ValidAt(data, offset) {
        return false;
      }
      var rawHeader := Bytes.LoadWord(data, offset);
      var size: nat;
      if HeaderRaw.Header(rawHeader).IsFreeBitrate() {
        size := probe(data[offset..]);
        if size == 0 {
          return false;
        }
      } else {
        size := FrameSize(rawHeader);
      }
      ChainedStep(data, probe, offset, nFrames, size);
      offset := offset + size;
      nFrames := nFrames - 1;
    }
    return true;
  }

  /** One link of a sequence: from a valid header, the rest of the
      sequence starts one frame further on, the frame being as long as the
      probe says for a free-format header and as the header says otherwise. */
  lemma ChainedStep(data: seq<bv8>, probe: seq<bv8> -> nat, offset: nat, n: nat, size: nat)
    requires n > 0 && offset + HeaderSize <= |data| && ValidAt(data, offset)
    requires var h := HeaderRaw.Header(Bytes.LoadWord(data, offset));
      size == if h.IsFreeBitrate() then probe(data[offset..]) else FrameSize(h.uCell)
    requires size != 0
    ensures Chained(data, probe, offset, n) == Chained(data, probe, offset + size, n - 1)
  {
  }

  /** calcFirstHeaderOffset: the least offset at which a frame sequence
      starts, or `|data|` when there is none. Every offset before the
      result has been ruled out, because findHeader skips only offsets
      whose word is not a valid header. */
  method CalcFirstHeaderOffset(data: seq<bv8>, probe: seq<bv8> -> nat) returns (offset: nat)
    ensures offset <= |data|
    ensures offset < |data| ==> Chained(data[offset..], probe, 0, HeadersToVerify)
    ensures forall j :: 0 <= j < offset ==> !Chained(data[j..], probe, 0, HeadersToVerify)
  {
    offset := 0;
    while offset < |data|
      invariant offset <= |data| + 1
      invariant forall j :: 0 <= j < offset && j < |data| ==> !Chained(data[j..], probe, 0, HeadersToVerify)
      decreases |data| + 1 - offset
    {
      var skip := FindHeader(data[offset..]);
      SkippedStartNoSequence(data, probe, offset, skip);
      offset := offset + skip;
      var found := VerifyFrameSequence(data[offset..], probe);
      if found {
        return;
      }
      offset := offset + 1;
    }
    return |data|;
  }

  /** The offsets findHeader skips start no frame sequence: their word is
      not a valid header. */
  lemma SkippedStartNoSequence(data: seq<bv8>, probe: seq<bv8> -> nat, offset: nat, skip: nat)
    requires offset < |data| && skip <= |data| - offset
    requires forall j :: 0 <= j < skip && j + HeaderSize <= |data| - offset ==> !ValidAt(data[offset..], j)
    ensures forall j :: offset <= j < offset + skip ==> !Chained(data[j..], probe, 0, HeadersToVerify)
  {
    forall j | offset <= j < offset + skip
      ensures !Chained(data[j..], probe, 0, HeadersToVerify)
    {
      SkippedHasNoHeader(data, offset, skip, j);
      NoHeaderNoChain(data[j..], probe, HeadersToVerify);
    }
  }

  /** An offset findHeader skips holds no valid header. */
  lemma SkippedHasNoHeader(data: seq<bv8>, offset: nat, skip: nat, j: nat)
    requires offset < |data| && skip <= |data| - offset && offset <= j < offset + skip
    requires forall j :: 0 <= j < skip && j + HeaderSize <= |data| - offset ==> !ValidAt(data[offset..], j)
    ensures !(HeaderSize <= |data[j..]| && ValidAt(data[j..], 0))
  {
    if j + HeaderSize <= |data| {
      Bytes.LoadWordSuffix(data, offset, j - offset);
      Bytes.LoadWordSuffix(data, j, 0);
      assert !ValidAt(data[offset..], j - offset);
    }
  }

  /** A buffer without a valid header at its start chains no frame. */
  lemma NoHeaderNoChain(data: seq<bv8>, probe: seq<bv8> -> nat, n: nat)
    requires 0 < n && !(HeaderSize <= |data| && ValidAt(data, 0))
    ensures !Chained(data, probe, 0, n)
  {
  }

  /** isIncompleteFrame: the buffer holds a valid header with a bitrate
      whose frame runs past the end of the buffer. */
  predicate IsIncompleteFrame(data: seq<bv8>)
    ensures IsIncompleteFrame(data) ==>
      HeaderSize <= |data| && ValidAt(data, 0) &&
      !HeaderRaw.Header(Bytes.LoadWord(data, 0)).IsFreeBitrate() &&
      |data| < FrameSize(Bytes.LoadWord(data, 0))
  {
    if |data| < HeaderSize then false
    else
      var rawHeader := Bytes.LoadWord(data, 0);
      if !HeaderRaw.Header(rawHeader).IsValid() then false
      else !HeaderRaw.Header(rawHeader).IsFreeBitrate() && FrameSize(rawHeader) > |data|
  }

  /** An incomplete frame never starts a frame sequence: the next header
      would lie past the end of the buffer. */
  lemma IncompleteFrameStartsNoSequence(data: seq<bv8>, probe: seq<bv8> -> nat)
    requires IsIncompleteFrame(data)
    ensures !Chained(data, probe, 0, HeadersToVerify)
  {
  }

  /** A free-format frame whose size the probe cannot find rejects the
      sequence. */
  lemma FailedProbeRejects(data: seq<bv8>, probe: seq<bv8> -> nat)
    requires HeaderSize <= |data| && ValidAt(data, 0)
    requires HeaderRaw.Header(Bytes.LoadWord(data, 0)).IsFreeBitrate() && probe(data) == 0
    ensures !Chained(data, probe, 0, HeadersToVerify)
  {
    assert data[0..] == data;
  }

  /** The headers of a sequence are not compared: three free-format headers
      with three different sampling rates, 4 bytes apart by the probe, pass. */
  lemma SequenceIgnoresStreamMismatch()
    ensures var data := Bytes.StoreWord(0x1B00FBFF) + Bytes.StoreWord(0x1B04FBFF) + Bytes.StoreWord(0x1B08FBFF);
      && Chained(data, _ => 4, 0, HeadersToVerify)
      && !HeaderRaw.Header(0x1B00FBFF).Equals(HeaderRaw.Header(0x1B04FBFF))
  {
    var data := Bytes.StoreWord(0x1B00FBFF) + Bytes.StoreWord(0x1B04FBFF) + Bytes.StoreWord(0x1B08FBFF);
    var probe: seq<bv8> -> nat := _ => 4;
    Bytes.LoadStore(0x1B00FBFF);
    Bytes.LoadStore(0x1B04FBFF);
    Bytes.LoadStore(0x1B08FBFF);
    assert Bytes.LoadWord(data, 0) == 0x1B00FBFF;
    assert Bytes.LoadWord(data, 4) == 0x1B04FBFF;
    assert Bytes.LoadWord(data, 8) == 0x1B08FBFF;
    assert Chained(data, probe, 12, 0);
    assert Chained(data, probe, 8, 1);
    assert Chained(data, probe, 4, 2);
  }
}
