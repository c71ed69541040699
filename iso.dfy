/** The MPEG audio frame header as ISO/IEC 11172-3 section 2.4.1.3 lays it out
    on the wire: four bytes, most significant bit of the first byte first,

        AAAAAAAA AAABBCCD EEEEFFGH IIJJKLMM

    with the field meanings of section 2.4.2.3 of ISO/IEC 11172-3 and of
    ISO/IEC 13818-3 (lower sampling frequencies), plus the non-ISO "MPEG 2.5"
    extension that gives version code 0 a meaning.

    These definitions read the bytes in transmission order and spell the
    tables by version and layer as the standards print them. They are the
    reference both header revisions of this library are proved against. */
module Iso {
  import Arith

  // Version codes (BB): 0 = MPEG 2.5, 1 = reserved, 2 = MPEG 2, 3 = MPEG 1.
  const V25: bv8 := 0
  const VersionReserved: bv8 := 1
  const V2: bv8 := 2
  const V1: bv8 := 3
  // Layer code (CC): 0 = reserved, 1 = Layer III, 2 = Layer II, 3 = Layer I.
  const LayerReserved: bv8 := 0
  // Bitrate index (EEEE): 0 = free format, 15 = forbidden.
  const BitrateFree: bv8 := 0
  const BitrateBad: bv8 := 15
  // Sampling frequency index (FF): 3 = reserved.
  const SamplingReserved: bv8 := 3
  // Channel mode (II): 3 = single channel.
  const Mono: bv8 := 3
  // Emphasis (MM): 2 = reserved.
  const EmphasisReserved: bv8 := 2

  /** The four header bytes in the order they are transmitted. */
  datatype Wire = Wire(b0: bv8, b1: bv8, b2: bv8, b3: bv8) {
    predicate HasSync() { b0 == 0xFF && b1 >> 5 == 7 }
    function Version(): bv8 { (b1 >> 3) & 3 }
    function LayerCode(): bv8 { (b1 >> 1) & 3 }
    function ProtectionBit(): bv8 { b1 & 1 }
    function BitrateIndex(): bv8 { b2 >> 4 }
    function SamplingIndex(): bv8 { (b2 >> 2) & 3 }
    function PaddingBit(): bv8 { (b2 >> 1) & 1 }
    function PrivateBit(): bv8 { b2 & 1 }
    function ChannelMode(): bv8 { b3 >> 6 }
    function ModeExtension(): bv8 { (b3 >> 4) & 3 }
    function CopyrightBit(): bv8 { (b3 >> 3) & 1 }
    function OriginalBit(): bv8 { (b3 >> 2) & 1 }
    function Emphasis(): bv8 { b3 & 3 }

    /** The layer number: code 3 is Layer I, 2 is Layer II, 1 is Layer III. */
    function Layer(): (l: nat)
      requires LayerCode() != LayerReserved
      ensures 1 <= l <= 3
    {
      if LayerCode() == 3 then 1 else if LayerCode() == 2 then 2 else 3
    }
  }

  /** The four bytes at `data[i..i + 4]`. */
  function WireAt(data: seq<bv8>, i: nat): (w: Wire)
    requires i + 4 <= |data|
  {
    Wire(data[i], data[i + 1], data[i + 2], data[i + 3])
  }

  /** Bitrates in kbit/s of MPEG-1 Layer II, by bitrate index 0-14. */
  const V1Layer2Kbps: seq<nat> := [0, 32, 48, 56, 64, 80, 96, 112, 128, 160, 192, 224, 256, 320, 384]

  /** The MPEG-1 Layer II restriction of section 2.4.2.3 of ISO/IEC 11172-3:
      32, 48, 56 and 80 kbit/s are allowed only in single channel mode, 224,
      256, 320 and 384 kbit/s only in the other modes, every other rate
      (free format included) in all modes. */
  predicate V1Layer2ModeAllowed(kbps: nat, mono: bool) {
    (kbps in {32, 48, 56, 80} ==> mono) && (kbps >= 224 ==> !mono)
  }

  /** A header that every field of the standard allows; `freeAllowed` says
      whether bitrate index 0 (free format) counts. */
  predicate Valid(w: Wire, freeAllowed: bool) {
    && w.HasSync()
    && w.Version() != VersionReserved
    && w.LayerCode() != LayerReserved
    && w.BitrateIndex() != BitrateBad
    && (freeAllowed || w.BitrateIndex() != BitrateFree)
    && w.SamplingIndex() != SamplingReserved
    && w.Emphasis() != EmphasisReserved
    && (w.Version() == V1 && w.Layer() == 2 ==>
          V1Layer2ModeAllowed(V1Layer2Kbps[w.BitrateIndex() as int], w.ChannelMode() == Mono))
  }

  /** The bitrate in kbit/s: the tables of section 2.4.2.3 of ISO/IEC 11172-3
      for MPEG-1 and of ISO/IEC 13818-3 for MPEG-2 (also used for MPEG 2.5),
      where Layers II and III share one table. */
  function BitrateKbps(w: Wire): (kbps: nat)
    requires w.Version() != VersionReserved && w.LayerCode() != LayerReserved
    requires w.BitrateIndex() != BitrateBad
  {
    var i := w.BitrateIndex() as int;
    if w.Version() == V1 then
      if w.Layer() == 1 then [0, 32, 64, 96, 128, 160, 192, 224, 256, 288, 320, 352, 384, 416, 448][i]
      else if w.Layer() == 2 then V1Layer2Kbps[i]
      else [0, 32, 40, 48, 56, 64, 80, 96, 112, 128, 160, 192, 224, 256, 320][i]
    else
      if w.Layer() == 1 then [0, 32, 48, 56, 64, 80, 96, 112, 128, 144, 160, 176, 192, 224, 256][i]
      else [0, 8, 16, 24, 32, 40, 48, 56, 64, 80, 96, 112, 128, 144, 160][i]
  }

  /** The sampling frequency in Hz: 44.1, 48 and 32 kHz for MPEG-1, half of
      each for MPEG-2 and a quarter for MPEG 2.5. */
  function SamplingHz(w: Wire): (hz: nat)
    requires w.Version() != VersionReserved && w.SamplingIndex() != SamplingReserved
    ensures 8000 <= hz <= 48000
  {
    var base := [44100, 48000, 32000][w.SamplingIndex() as int];
    if w.Version() == V1 then base else if w.Version() == V2 then base / 2 else base / 4
  }

  /** Audio samples per channel in one frame: 384 for Layer I, 1152 for
      Layer II and for MPEG-1 Layer III, 576 for Layer III at the lower
      sampling frequencies. */
  function SamplesPerFrame(w: Wire): (n: nat)
    requires w.Version() != VersionReserved && w.LayerCode() != LayerReserved
  {
    if w.Layer() == 1 then 384 else if w.Layer() == 3 && w.Version() != V1 then 576 else 1152
  }

  /** Bytes per slot: 4 for Layer I, 1 for Layers II and III. */
  function SlotBytes(w: Wire): (n: nat)
    requires w.LayerCode() != LayerReserved
    ensures n == 1 || n == 4
  {
    if w.Layer() == 1 then 4 else 1
  }

  /** The frame length in bytes of section 2.4.3.1 of ISO/IEC 11172-3:
      N = SamplesPerFrame / 8 * bitrate / sampling frequency slots, rounded
      down, plus one slot when the padding bit is set. */
  function FrameBytes(w: Wire): (n: nat)
    requires Valid(w, false)
  {
    var coefficient: nat := SamplesPerFrame(w) / 8 / SlotBytes(w);
    var bps: nat := BitrateKbps(w) * 1000;
    var product: nat := Arith.Product(coefficient, bps);
    var slots: nat := Arith.Quotient(product, SamplingHz(w));
    (slots + if w.PaddingBit() == 1 then 1 else 0) * SlotBytes(w)
  }

  /** Layer III side information, in bytes: 32 (two channels) or 17 (one
      channel) for MPEG-1 in section 2.4.1.7 of ISO/IEC 11172-3, 17 or 9 for
      the lower sampling frequencies of ISO/IEC 13818-3; no side information
      block is counted for Layers I and II. */
  function SideInfoBytes(w: Wire): (n: nat)
    requires w.LayerCode() != LayerReserved
  {
    if w.Layer() != 3 then 0
    else if w.Version() == V1 then (if w.ChannelMode() == Mono then 17 else 32)
    else (if w.ChannelMode() == Mono then 9 else 17)
  }
}
