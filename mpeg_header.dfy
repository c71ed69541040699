/** The header class of header.h and header.cpp, the older revision of the
    header code. The constructor decodes the word once into a validity flag,
    a version, a layer number, a bitrate and a sampling frequency, and
    nothing changes them afterwards, so a header is a value built by `Make`.
    Unlike header_raw.h, this revision rejects free-format headers. */
module MpegHeader {
  import Arith
  import Bytes
  import Iso

  datatype ChannelMode = Stereo | JointStereo | Dual | Mono
  datatype Emphasis = EmphasisNone | Emphasis50_15 | EmphasisCcitJ17

  /** CMPEGVer: the 2-bit version code as two flags. */
  datatype MpegVersion = MpegVersion(v2: bool, v25: bool) {
    predicate IsValid() { v2 || !v25 }
    predicate IsV2() { v2 }
    /** Row of the sampling frequency table: 0 for MPEG-1, 1 for MPEG-2, 2 for MPEG 2.5. */
    function Index(): nat { if v2 then (if v25 then 2 else 1) else 0 }
  }

  /** Decodes a version code: 3 is MPEG-1, 2 is MPEG-2, 0 is MPEG 2.5 and 1
      (reserved) is the only invalid one. */
  function VersionOf(mask: bv32): (v: MpegVersion)
    ensures v.IsValid() <==> mask != 1
    ensures v.IsV2() <==> mask == 2 || mask == 0
    ensures v.Index() == (if mask == 2 then 1 else if mask == 0 then 2 else 0)
  {
    MpegVersion(mask == 0x02 || mask == 0x00, mask == 0x00 || mask == 0x01)
  }

  /** Allowed MPEG-1 Layer II combinations, by bitrate index and then by
      whether the channel mode is mono. */
  const Consistent: seq<seq<bool>> := [
    [true,  true],   // free
    [false, true],   // 32
    [false, true],   // 48
    [false, true],   // 56
    [true,  true],   // 64
    [false, true],   // 80
    [true,  true],   // 96
    [true,  true],   // 112
    [true,  true],   // 128
    [true,  true],   // 160
    [true,  true],   // 192
    [true,  false],  // 224
    [true,  false],  // 256
    [true,  false],  // 320
    [true,  false],  // 384
    [false, false]   // reserved
  ]

  /** Bitrate table row, by "is MPEG-2 or 2.5" and then by layer - 1. */
  const BitrateRow: seq<seq<nat>> := [[0, 1, 2], [3, 4, 4]]

  /** Bitrates in kbit/s, by row and bitrate index. */
  const BitrateKbps: seq<seq<nat>> := [
    [0, 32, 64, 96, 128, 160, 192, 224, 256, 288, 320, 352, 384, 416, 448, 0],
    [0, 32, 48, 56,  64,  80,  96, 112, 128, 160, 192, 224, 256, 320, 384, 0],
    [0, 32, 40, 48,  56,  64,  80,  96, 112, 128, 160, 192, 224, 256, 320, 0],
    [0, 32, 48, 56,  64,  80,  96, 112, 128, 144, 160, 176, 192, 224, 256, 0],
    [0,  8, 16, 24,  32,  40,  48,  56,  64,  80,  96, 112, 128, 144, 160, 0]
  ]

  /** Sampling frequencies in Hz, by version index and sampling index. */
  const Frequency: seq<seq<nat>> := [
    [44100, 48000, 32000],
    [22050, 24000, 16000],
    [11025, 12000,  8000],
    [    0,     0,     0]
  ]

  /** Layer III side information size, by "is MPEG-2 or 2.5" and then by "is mono". */
  const SideInfo: seq<seq<nat>> := [[32, 17], [17, 9]]

  /** Samples per frame / 8 (Layer I counted in 4-byte slots), by "is
      MPEG-2 or 2.5" and then by layer - 1. */
  const Spf8: seq<seq<nat>> := [[12, 144, 144], [12, 144, 72]]

  /** Slot size in bytes, by layer - 1. */
  const SlotSize: seq<nat> := [4, 1, 1]

  /** isValidInternal: the sync mask, the reserved and free codes, and for
      MPEG-1 Layer II the bitrate/mono table, which allows at most
      192 kbit/s (index 10) in mono and none of indexes 1, 2, 3 and 5 in
      the other modes. */
  predicate IsValidInternal(h: bv32)
    ensures IsValidInternal(h) <==>
      && h & 0xFF == 0xFF && (h >> 13) & 0x7 == 0x7
      && (h >> 11) & 0x3 != 1 && (h >> 9) & 0x3 != 0
      && (h >> 20) & 0xF != 0 && (h >> 20) & 0xF != 0xF
      && (h >> 18) & 0x3 != 3 && (h >> 24) & 0x3 != 2
      && ((h >> 11) & 0x3 == 3 && (h >> 9) & 0x3 == 2 ==>
            if (h >> 30) & 0x3 == 3 then (h >> 20) & 0xF <= 10
            else (h >> 20) & 0xF != 1 && (h >> 20) & 0xF != 2 && (h >> 20) & 0xF != 3 && (h >> 20) & 0xF != 5)
  {
    if (h & 0xE0FF) != 0xE0FF then false
    else if (h & 0x0600) == 0 || (h & 0xF00000) == 0 || (!h & 0xF00000) == 0 || (!h & 0x0C0000) == 0 then false
    else if (h & 0x1800) == 0x0800 || (h & 0x03000000) == 0x02000000 then false
    else if (h & 0x1800) == 0x1800 && (h & 0x0600) == 0x0400 then
      Consistent[((h >> 20) & 0x0F) as int][if ((h >> 30) & 0x3) == 0x3 then 1 else 0]
    else true
  }

  /** calcMpegVersion: the version code of bits 11-12. It is invalid
      exactly when isValidInternal's reserved-version test fires, and it is
      MPEG-2 or 2.5 exactly when bit 11 is clear. */
  function CalcMpegVersion(h: bv32): (v: MpegVersion)
    ensures v.IsValid() <==> h & 0x1800 != 0x0800
    ensures v.IsV2() <==> h & 0x0800 == 0
    ensures v.Index() == (if h & 0x1800 == 0x1000 then 1 else if h & 0x1800 == 0 then 2 else 0)
  {
    VersionOf((h >> 11) & 0x3)
  }

  /** Layer codes 3, 2 and 1 give layers 1, 2 and 3; code 0 is refused. */
  function CalcLayer(h: bv32): (layer: nat)
    requires (h >> 9) & 0x03 != 0
    ensures 1 <= layer <= 3
    ensures layer == 1 <==> (h >> 9) & 0x03 == 3
    ensures layer == 2 <==> (h >> 9) & 0x03 == 2
  {
    4 - ((h >> 9) & 0x03) as nat
  }

  /** The bitrate in bit/s: always a whole number of kbit/s, at most
      448 kbit/s, and 0 for the free and forbidden indexes. MPEG-2 and 2.5
      Layers II and III read the same row. */
  function CalcBitrate(h: bv32, ver: MpegVersion, layer: nat): (bps: nat)
    requires ver.IsValid() && 1 <= layer <= 3
    ensures bps % 1000 == 0 && bps <= 448000
    ensures (h >> 20) & 0x0F == 0 || (h >> 20) & 0x0F == 0x0F ==> bps == 0
    ensures ver.IsV2() && layer == 3 ==> bps == CalcBitrate(h, ver, 2)
  {
    BitrateKbps[BitrateRow[if ver.IsV2() then 1 else 0][layer - 1]][((h >> 20) & 0x0F) as int] * 1000
  }

  /** The sampling frequency in Hz: the MPEG-1 value halved for MPEG-2 and
      quartered for MPEG 2.5. */
  function CalcFrequency(h: bv32, ver: MpegVersion): (hz: nat)
    requires ver.IsValid() && (h >> 18) & 0x03 != 3
    ensures hz == [44100, 48000, 32000][((h >> 18) & 0x03) as int] / [1, 2, 4][ver.Index()]
  {
    Frequency[ver.Index()][((h >> 18) & 0x03) as int]
  }

  datatype Header = Header(header: bv32, valid: bool, mpeg: MpegVersion, layer: nat, bitrate: nat, frequency: nat) {
    /** What the constructor establishes about the decoded fields. */
    predicate Wf() {
      valid ==> mpeg.IsValid() && 1 <= layer <= 3 && frequency > 0
    }

    /** The one-bit flags: protection (a CRC follows) when bit 8 is clear;
        padding, private, copyright and original when bits 17, 16, 27 and
        26 are set. */
    predicate IsProtected()
      ensures IsProtected() <==> header & 0x100 == 0
    {
      (header >> 8) & 0x01 == 0
    }

    predicate IsPadded()
      ensures IsPadded() <==> header & 0x2_0000 != 0
    {
      (header >> 17) & 0x01 == 1
    }

    predicate IsPrivate()
      ensures IsPrivate() <==> header & 0x1_0000 != 0
    {
      (header >> 16) & 0x01 == 1
    }

    predicate IsCopyrighted()
      ensures IsCopyrighted() <==> header & 0x800_0000 != 0
    {
      (header >> 27) & 0x01 == 1
    }

    predicate IsOriginal()
      ensures IsOriginal() <==> header & 0x400_0000 != 0
    {
      (header >> 26) & 0x01 == 1
    }

    /** The channel mode of bits 30-31: 0 stereo, 1 joint stereo, 2 dual
        channel, 3 mono. */
    function GetChannelMode(): (m: ChannelMode)
      ensures m == Stereo <==> header >> 30 == 0
      ensures m == JointStereo <==> header >> 30 == 1
      ensures m == Dual <==> header >> 30 == 2
      ensures m == Mono <==> header >> 30 == 3
    {
      var code := (header >> 30) & 0x03;
      if code == 0 then Stereo else if code == 1 then JointStereo else if code == 2 then Dual else Mono
    }

    /** Emphasis code 1 is 50/15 microseconds, 3 is CCITT J.17, 0 is none;
        code 2 is refused. */
    function GetEmphasis(): (e: Emphasis)
      requires (header >> 24) & 0x03 != 0x02
      ensures e == Emphasis50_15 <==> (header >> 24) & 0x03 == 1
      ensures e == EmphasisCcitJ17 <==> (header >> 24) & 0x03 == 3
      ensures e == EmphasisNone <==> (header >> 24) & 0x03 == 0
    {
      var code := (header >> 24) & 0x03;
      if code == 0x01 then Emphasis50_15 else if code == 0x03 then EmphasisCcitJ17 else EmphasisNone
    }

    /** Layer III side information size; 0 for the other layers. MPEG-1
        stereo has the most (32 bytes), MPEG-2 and 2.5 mono the least
        (9 bytes). */
    function GetSideInfoSize(): (n: nat)
      requires valid && Wf()
      ensures n == 0 <==> layer != 3
      ensures n <= 32
      ensures n == 32 <==> layer == 3 && !mpeg.IsV2() && GetChannelMode() != Mono
      ensures n == 9 <==> layer == 3 && mpeg.IsV2() && GetChannelMode() == Mono
    {
      if layer == 3 then SideInfo[if mpeg.IsV2() then 1 else 0][if GetChannelMode() == Mono then 1 else 0] else 0
    }

    /** Frame size in bytes of a valid header; for an invalid one the
        source stops in an ASSERT. */
    function GetFrameSize(): (n: nat)
      requires valid && Wf()
      ensures n % SlotSize[layer - 1] == 0
      ensures IsPadded() ==> SlotSize[layer - 1] <= n
    {
      (Spf8[if mpeg.IsV2() then 1 else 0][layer - 1] * bitrate / frequency + (if IsPadded() then 1 else 0))
           * SlotSize[layer - 1]
    }

    /** Offset of the next frame: the frame size plus two bytes when the
        copyright bit is set, a case the source refuses, so that it is
        always the frame size. */
    function GetNextFrame(): (n: nat)
      requires valid && Wf() && !IsCopyrighted()
      ensures n == GetFrameSize()
    {
      GetFrameSize() + (if IsCopyrighted() then 2 else 0)
    }

    /** operator==: version, layer, sampling rate, channel mode and emphasis agree. */
    predicate Equals(other: Header)
      ensures Equals(other) <==>
        && (header >> 11) & 3 == (other.header >> 11) & 3
        && (header >> 9) & 3 == (other.header >> 9) & 3
        && (header >> 18) & 3 == (other.header >> 18) & 3
        && header >> 30 == other.header >> 30
        && (header >> 24) & 3 == (other.header >> 24) & 3
    {
      (header & 0xC30C1E00) == (other.header & 0xC30C1E00)
    }

    /** operator!=: the negation of `other == this`, which is the negation of `this == other`. */
    predicate NotEquals(other: Header)
      ensures NotEquals(other) <==> !Equals(other)
    {
      !other.Equals(this)
    }
  }

  /** The constructor: decodes version, layer, bitrate and frequency only
      when the header is valid; otherwise they stay reserved, 0, 0 and 0. */
  function Make(raw: bv32): (h: Header)
    ensures h.header == raw && h.Wf()
    ensures h.valid == IsValidInternal(raw)
    ensures !h.valid ==> !h.mpeg.IsValid() && h.layer == 0 && h.bitrate == 0 && h.frequency == 0
    ensures h.valid ==> 8000 <= h.bitrate <= 448000 && h.bitrate % 1000 == 0
    ensures h.valid ==> 8000 <= h.frequency <= 48000
  {
    if IsValidInternal(raw) then
      var ver := CalcMpegVersion(raw);
      var layer := CalcLayer(raw);
      Header(raw, true, ver, layer, CalcBitrate(raw, ver, layer), CalcFrequency(raw, ver))
    else
      Header(raw, false, VersionOf(0x01), 0, 0, 0)
  }

  /** isValidInternal is exactly the validity of the standard with free
      format refused. */
  lemma IsValidInternalMatchesIso(data: seq<bv8>, i: nat)
    requires i + 4 <= |data|
    ensures IsValidInternal(Bytes.LoadWord(data, i)) <==> Iso.Valid(Iso.WireAt(data, i), false)
  {
    var raw, w := Bytes.LoadWord(data, i), Iso.WireAt(data, i);
    assert (raw >> 20) & 0x0F == w.BitrateIndex() as bv32;
    assert (raw >> 30) & 0x3 == w.ChannelMode() as bv32;
    if w.HasSync() && w.Version() == Iso.V1 && w.LayerCode() == 2 && w.BitrateIndex() != Iso.BitrateBad {
      var k := w.BitrateIndex() as int;
      assert ((raw >> 20) & 0x0F) as int == k;
      assert Consistent[k][1] <==> Iso.V1Layer2ModeAllowed(Iso.V1Layer2Kbps[k], true);
      assert Consistent[k][0] <==> Iso.V1Layer2ModeAllowed(Iso.V1Layer2Kbps[k], false);
    }
  }

  /** The bitrate a valid header decodes to is the standard's. */
  lemma BitrateMatchesIso(data: seq<bv8>, i: nat)
    requires i + 4 <= |data|
    requires Make(Bytes.LoadWord(data, i)).valid
    ensures Iso.Valid(Iso.WireAt(data, i), false)
    ensures Make(Bytes.LoadWord(data, i)).bitrate == Iso.BitrateKbps(Iso.WireAt(data, i)) * 1000
  {
    var raw, w := Bytes.LoadWord(data, i), Iso.WireAt(data, i);
    IsValidInternalMatchesIso(data, i);
    var k := w.BitrateIndex() as int;
    assert ((raw >> 20) & 0x0F) as int == k;
    var h := Make(raw);
    assert h.layer == w.Layer() && (h.mpeg.IsV2() <==> w.Version() != Iso.V1);
    var row := BitrateRow[if h.mpeg.IsV2() then 1 else 0][h.layer - 1];
    assert h.bitrate == BitrateKbps[row][k] * 1000;
    if w.Version() == Iso.V1 && w.Layer() == 1 {
      assert BitrateKbps[0][..15] == [0, 32, 64, 96, 128, 160, 192, 224, 256, 288, 320, 352, 384, 416, 448];
    } else if w.Version() == Iso.V1 && w.Layer() == 2 {
      assert BitrateKbps[1][..15] == Iso.V1Layer2Kbps;
    } else if w.Version() == Iso.V1 {
      assert BitrateKbps[2][..15] == [0, 32, 40, 48, 56, 64, 80, 96, 112, 128, 160, 192, 224, 256, 320];
    } else if w.Layer() == 1 {
      assert BitrateKbps[3][..15] == [0, 32, 48, 56, 64, 80, 96, 112, 128, 144, 160, 176, 192, 224, 256];
    } else {
      assert BitrateKbps[4][..15] == [0, 8, 16, 24, 32, 40, 48, 56, 64, 80, 96, 112, 128, 144, 160];
    }
  }

  /** A valid header decodes to the layer, bitrate, sampling frequency, side
      information size and frame size that the standard gives its bytes. */
  lemma MakeMatchesIso(data: seq<bv8>, i: nat)
    requires i + 4 <= |data|
    requires Make(Bytes.LoadWord(data, i)).valid
    ensures var h, w := Make(Bytes.LoadWord(data, i)), Iso.WireAt(data, i);
      && Iso.Valid(w, false)
      && h.layer == w.Layer()
      && h.mpeg.IsV2() == (w.Version() != Iso.V1)
      && h.bitrate == Iso.BitrateKbps(w) * 1000
      && h.frequency == Iso.SamplingHz(w)
      && h.GetSideInfoSize() == Iso.SideInfoBytes(w)
      && h.GetFrameSize() == Iso.FrameBytes(w)
  {
    var raw, w := Bytes.LoadWord(data, i), Iso.WireAt(data, i);
    var h := Make(raw);
    BitrateMatchesIso(data, i);
    assert ((raw >> 18) & 0x03) as int == w.SamplingIndex() as int;
    assert h.frequency == Iso.SamplingHz(w);
    assert h.IsPadded() <==> w.PaddingBit() == 1;
    assert h.GetChannelMode() == Mono <==> w.ChannelMode() == Iso.Mono;
    var k := Spf8[if h.mpeg.IsV2() then 1 else 0][h.layer - 1];
    assert k == Iso.SamplesPerFrame(w) / 8 / Iso.SlotBytes(w);
    assert SlotSize[h.layer - 1] == Iso.SlotBytes(w);
  }

  /** The one-bit flags and the channel mode read the bits the standard
      gives them in the header bytes; none of them depends on validity. */
  lemma FlagsOnWire(data: seq<bv8>, i: nat)
    requires i + 4 <= |data|
    ensures var h, w := Make(Bytes.LoadWord(data, i)), Iso.WireAt(data, i);
      && (h.IsProtected() <==> w.ProtectionBit() == 0)
      && (h.IsPadded() <==> w.PaddingBit() == 1)
      && (h.IsPrivate() <==> w.PrivateBit() == 1)
      && (h.IsCopyrighted() <==> w.CopyrightBit() == 1)
      && (h.IsOriginal() <==> w.OriginalBit() == 1)
      && (h.GetChannelMode() == Stereo <==> w.ChannelMode() == 0)
      && (h.GetChannelMode() == JointStereo <==> w.ChannelMode() == 1)
      && (h.GetChannelMode() == Dual <==> w.ChannelMode() == 2)
      && (h.GetChannelMode() == Mono <==> w.ChannelMode() == Iso.Mono)
  {
  }

  /** The bitrate and frequency ranges of each version and layer. */
  lemma DecodedRanges(raw: bv32)
    requires Make(raw).valid
    ensures var h := Make(raw);
      && (!h.mpeg.IsV2() ==> 32000 <= h.frequency <= 48000)
      && (h.mpeg.IsV2() ==> 8000 <= h.frequency <= 24000)
      && (!h.mpeg.IsV2() && h.layer == 1 ==> 32000 <= h.bitrate <= 448000)
      && (!h.mpeg.IsV2() && h.layer == 2 ==> 32000 <= h.bitrate <= 384000)
      && (!h.mpeg.IsV2() && h.layer == 3 ==> 32000 <= h.bitrate <= 320000)
      && (h.mpeg.IsV2() && h.layer == 1 ==> 32000 <= h.bitrate <= 256000)
      && (h.mpeg.IsV2() && h.layer != 1 ==> 8000 <= h.bitrate <= 160000)
  {
  }

  /** `k * b / f` lies in `[lo, hi]` when `b` and `f` lie in their ranges. */
  lemma QuotientRange(k: nat, b: nat, f: nat, bLo: nat, bHi: nat, fLo: nat, fHi: nat, lo: nat, hi: nat)
    requires bLo <= b <= bHi && 0 < fLo <= f <= fHi
    requires lo * fHi <= k * bLo && k * bHi < (hi + 1) * fLo
    ensures lo <= k * b / f <= hi
  {
    Arith.MulMonotonic(bLo, b, k);
    Arith.MulMonotonic(b, bHi, k);
    Arith.MulMonotonic(f, fHi, lo);
    Arith.MulMonotonic(fLo, f, hi + 1);
    assert bLo * k == k * bLo && b * k == k * b && bHi * k == k * bHi;
    Arith.DivAtLeast(k * b, f, lo);
    Arith.DivAtMost(k * b, f, hi);
  }

  /** For every valid header the frame is 24 to 2881 bytes long, and the
      product Spf8 * bitrate stays below 2^32, so the unsigned arithmetic
      of the source does not wrap. */
  lemma FrameSizeBounds(raw: bv32)
    requires Make(raw).valid
    ensures var h := Make(raw);
      && Spf8[if h.mpeg.IsV2() then 1 else 0][h.layer - 1] * h.bitrate < 0x1_0000_0000
      && 24 <= h.GetFrameSize() <= 2881
  {
    var h := Make(raw);
    if h.mpeg.IsV2() {
      SlotsBoundsV2(raw);
    } else {
      SlotsBoundsV1(raw);
    }
    var slots := Spf8[if h.mpeg.IsV2() then 1 else 0][h.layer - 1] * h.bitrate / h.frequency;
    assert h.GetFrameSize() == (slots + (if h.IsPadded() then 1 else 0)) * SlotSize[h.layer - 1];
  }

  /** Slots per MPEG-1 frame, before padding: 8 to 168 in Layer I, 96 to
      1728 in Layers II and III. */
  lemma SlotsBoundsV1(raw: bv32)
    requires Make(raw).valid && !Make(raw).mpeg.IsV2()
    ensures var h := Make(raw);
      var k := Spf8[0][h.layer - 1];
      && k * h.bitrate < 0x1_0000_0000
      && (h.layer == 1 ==> 8 <= k * h.bitrate / h.frequency <= 168)
      && (h.layer != 1 ==> 96 <= k * h.bitrate / h.frequency <= 1728)
  {
    var h := Make(raw);
    DecodedRanges(raw);
    var b, f := h.bitrate, h.frequency;
    if h.layer == 1 {
      QuotientRange(12, b, f, 32000, 448000, 32000, 48000, 8, 168);
    } else if h.layer == 2 {
      QuotientRange(144, b, f, 32000, 384000, 32000, 48000, 96, 1728);
    } else {
      QuotientRange(144, b, f, 32000, 320000, 32000, 48000, 96, 1440);
    }
  }

  /** Slots per MPEG-2 or MPEG 2.5 frame, before padding: 16 to 384 in
      Layer I, 24 to 2880 in Layers II and III. */
  lemma SlotsBoundsV2(raw: bv32)
    requires Make(raw).valid && Make(raw).mpeg.IsV2()
    ensures var h := Make(raw);
      var k := Spf8[1][h.layer - 1];
      && k * h.bitrate < 0x1_0000_0000
      && (h.layer == 1 ==> 16 <= k * h.bitrate / h.frequency <= 384)
      && (h.layer != 1 ==> 24 <= k * h.bitrate / h.frequency <= 2880)
  {
    var h := Make(raw);
    DecodedRanges(raw);
    var b, f := h.bitrate, h.frequency;
    if h.layer == 1 {
      QuotientRange(12, b, f, 32000, 256000, 8000, 24000, 16, 384);
    } else if h.layer == 2 {
      QuotientRange(144, b, f, 8000, 160000, 8000, 24000, 48, 2880);
    } else {
      QuotientRange(72, b, f, 8000, 160000, 8000, 24000, 24, 1440);
    }
  }

  /** Setting the padding bit adds exactly one slot: 4 bytes in Layer I,
      1 byte in Layers II and III. Nothing else in the decoded header changes. */
  lemma PaddingAddsOneSlot(raw: bv32)
    requires Make(raw).valid && !Make(raw).IsPadded()
    ensures Make(raw | 0x20000).valid
    ensures Make(raw | 0x20000).GetFrameSize() == Make(raw).GetFrameSize() + SlotSize[Make(raw).layer - 1]
  {
    var p := raw | 0x20000;
    assert IsValidInternal(p) == IsValidInternal(raw) by {
      assert p & 0xE0FF == raw & 0xE0FF && p & 0x1F00600 == raw & 0x1F00600;
      assert p & 0x0C0000 == raw & 0x0C0000 && p >> 30 == raw >> 30;
      assert (p >> 20) & 0x0F == (raw >> 20) & 0x0F;
    }
    assert CalcMpegVersion(p) == CalcMpegVersion(raw);
    assert CalcLayer(p) == CalcLayer(raw);
    assert (p >> 20) & 0x0F == (raw >> 20) & 0x0F;
    assert (p >> 18) & 0x03 == (raw >> 18) & 0x03;
    assert Make(p) == Make(raw).(header := p);
    assert Make(p).IsPadded();
  }

  /** A Layer I frame is a whole number of 4-byte slots. */
  lemma LayerOneFrameIsWholeSlots(raw: bv32)
    requires Make(raw).valid && Make(raw).layer == 1
    ensures Make(raw).GetFrameSize() % 4 == 0
  {
  }

  /** The Layer III side information block lies inside the frame, after the
      4-byte header. */
  lemma SideInfoWithinFrame(raw: bv32)
    requires Make(raw).valid
    ensures 4 + Make(raw).GetSideInfoSize() < Make(raw).GetFrameSize()
  {
    FrameSizeBounds(raw);
    var h := Make(raw);
    if h.layer == 3 && !h.mpeg.IsV2() {
      assert h.GetFrameSize() >= 96;
    }
  }

  /** MPEG-1 Layer III at 128 kbit/s and 44.1 kHz: 417 bytes, 418 padded. */
  lemma FrameSizeExample()
    ensures Make(0x4490FBFF).valid && Make(0x4490FBFF).GetFrameSize() == 417
    ensures Make(0x4492FBFF).valid && Make(0x4492FBFF).GetFrameSize() == 418
  {
  }

  /** Free format is refused by this revision. */
  lemma FreeFormatIsInvalid()
    ensures !Make(0x1B00FBFF).valid
  {
  }

  /** The stream comparison is an equivalence relation. */
  lemma EqualsIsEquivalence(a: Header, b: Header, c: Header)
    ensures a.Equals(a)
    ensures a.Equals(b) ==> b.Equals(a)
    ensures a.Equals(b) && b.Equals(c) ==> a.Equals(c)
  {
  }
}
