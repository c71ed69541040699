/** The raw header of header_raw.h, the newer revision of the header code.

    The header word is the four header bytes loaded as a little-endian
    32-bit integer and read through a bitfield union whose first member is
    the low bit: Sync0 is bits 0-7, Protection bit 8, Layer bits 9-10,
    Version bits 11-12, Sync1 bits 13-15, Private bit 16, Padding bit 17,
    Sampling bits 18-19, Bitrate bits 20-23, Emphasis bits 24-25, Original
    bit 26, Copyright bit 27, Extension bits 28-29 and Channel bits 30-31.
    In this revision a free-format header (bitrate index 0) is valid. */
module HeaderRaw {
  import Bytes
  import Iso

  // The enum values the header compares against (ISO codes).
  const VersionV25: bv32 := 0
  const VersionReserved: bv32 := 1
  const VersionV2: bv32 := 2
  const VersionV1: bv32 := 3
  const LayerReserved: bv32 := 0
  const Layer3: bv32 := 1
  const Layer2: bv32 := 2
  const Layer1: bv32 := 3
  const BitrateFree: bv32 := 0x0
  const BitrateBad: bv32 := 0xF
  const SamplingRateReserved: bv32 := 3
  const EmphasisReserved: bv32 := 2
  const ChannelMono: bv32 := 3

  /** Sync0 and Sync1 must be all ones. */
  const SyncMask: bv32 := 0xE0FF
  /** Version, layer, sampling rate, channel mode and emphasis. */
  const CmpMask: bv32 := 0xC30C1E00

  /** Allowed MPEG-1 Layer II combinations, by bitrate index and then by
      whether the channel mode is mono. */
  const Consistent: seq<seq<bool>> := [
    [true,  true],   // free
    [false, true],   // 32
    [false, true],   // 48
    [false, true],   // 56
    [true,  true],   // 64
    [false, true],   // 80
    [true,  true],   // 96
    [true,  true],   // 112
    [true,  true],   // 128
    [true,  true],   // 160
    [true,  true],   // 192
    [true,  false],  // 224
    [true,  false],  // 256
    [true,  false],  // 320
    [true,  false],  // 384
    [false, false]   // reserved
  ]

  datatype Header = Header(uCell: bv32) {
    function Sync0(): bv32 { uCell & 0xFF }
    function Protection(): bv32 { (uCell >> 8) & 0x1 }
    function Layer(): bv32 { (uCell >> 9) & 0x3 }
    function Version(): bv32 { (uCell >> 11) & 0x3 }
    function Sync1(): bv32 { (uCell >> 13) & 0x7 }
    function Private(): bv32 { (uCell >> 16) & 0x1 }
    function Padding(): bv32 { (uCell >> 17) & 0x1 }
    function Sampling(): bv32 { (uCell >> 18) & 0x3 }
    function Bitrate(): bv32 { (uCell >> 20) & 0xF }
    function Emphasis(): bv32 { (uCell >> 24) & 0x3 }
    function Original(): bv32 { (uCell >> 26) & 0x1 }
    function Copyright(): bv32 { (uCell >> 27) & 0x1 }
    function Extension(): bv32 { (uCell >> 28) & 0x3 }
    function Channel(): bv32 { (uCell >> 30) & 0x3 }

    /** Sync bits set, no reserved field, and for MPEG-1 Layer II a bitrate
        that the channel mode allows: at most 192 kbit/s (index 10) in mono,
        and none of 32, 48, 56 or 80 kbit/s (indexes 1, 2, 3 and 5) in the
        other modes. */
    predicate IsValid()
      ensures IsValid() <==>
        && Sync0() == 0xFF && Sync1() == 0x7
        && Version() != VersionReserved && Layer() != LayerReserved && Bitrate() != BitrateBad
        && Sampling() != SamplingRateReserved && Emphasis() != EmphasisReserved
        && (Version() == VersionV1 && Layer() == Layer2 ==>
              if Channel() == ChannelMono then Bitrate() <= 10
              else Bitrate() != 1 && Bitrate() != 2 && Bitrate() != 3 && Bitrate() != 5)
    {
      if (uCell & SyncMask) != SyncMask then false
      else if Version() == VersionReserved || Layer() == LayerReserved || Bitrate() == BitrateBad
              || Sampling() == SamplingRateReserved || Emphasis() == EmphasisReserved then false
      else if Version() != VersionV1 || Layer() != Layer2 then true
      else Consistent[Bitrate() as int][if Channel() == ChannelMono then 1 else 0]
    }

    /** MPEG-2 or MPEG 2.5: of the versions that are not reserved, every
        one but MPEG-1; the low version bit (bit 11) is clear. */
    predicate IsV2()
      ensures Version() != VersionReserved ==> (IsV2() <==> Version() != VersionV1)
      ensures IsV2() <==> uCell & 0x800 == 0
    {
      Version() == VersionV2 || Version() == VersionV25
    }

    /** A CRC follows the header exactly when bit 8 is clear. */
    predicate IsProtected()
      ensures IsProtected() <==> uCell & 0x100 == 0
    {
      Protection() == 0
    }

    /** Free format: all four bitrate bits (20-23) clear. */
    predicate IsFreeBitrate()
      ensures IsFreeBitrate() <==> uCell & 0xF0_0000 == 0
    {
      Bitrate() == BitrateFree
    }

    /** operator==: the "same stream" comparison. Two headers agree iff their
        version, layer, sampling rate, channel mode and emphasis agree;
        nothing else is looked at. */
    predicate Equals(other: Header)
      ensures Equals(other) <==>
        && Version() == other.Version() && Layer() == other.Layer()
        && Sampling() == other.Sampling() && Channel() == other.Channel()
        && Emphasis() == other.Emphasis()
    {
      ((uCell ^ other.uCell) & CmpMask) == 0
    }
  }

  /** The bitfields of the union, one per member. */
  datatype Fields = Fields(
    sync0: bv32, protection: bv32, layer: bv32, version: bv32, sync1: bv32,
    private: bv32, padding: bv32, sampling: bv32, bitrate: bv32,
    emphasis: bv32, original: bv32, copyright: bv32, extension: bv32, channel: bv32)
  {
    /** Every field fits its declared width. */
    predicate Fits() {
      && sync0 < 0x100 && protection < 2 && layer < 4 && version < 4 && sync1 < 8
      && private < 2 && padding < 2 && sampling < 4 && bitrate < 0x10
      && emphasis < 4 && original < 2 && copyright < 2 && extension < 4 && channel < 4
    }
  }

  /** Reading every bitfield of the union. */
  function Unpack(h: Header): (f: Fields)
    ensures f.Fits()
  {
    Fields(h.Sync0(), h.Protection(), h.Layer(), h.Version(), h.Sync1(),
           h.Private(), h.Padding(), h.Sampling(), h.Bitrate(),
           h.Emphasis(), h.Original(), h.Copyright(), h.Extension(), h.Channel())
  }

  /** Writing every bitfield of the union: the fields tile the 32 bits, so
      each field reads back as written. */
  function Pack(f: Fields): (h: Header)
    requires f.Fits()
    ensures Unpack(h) == f
  {
    Header(f.sync0 | (f.protection << 8) | (f.layer << 9) | (f.version << 11) | (f.sync1 << 13)
           | (f.private << 16) | (f.padding << 17) | (f.sampling << 18) | (f.bitrate << 20)
           | (f.emphasis << 24) | (f.original << 26) | (f.copyright << 27)
           | (f.extension << 28) | (f.channel << 30))
  }

  /** No bit of `uCell` lies outside a field. */
  lemma PackUnpack(h: Header)
    ensures Pack(Unpack(h)) == h
  {
  }

  /** The union read over the little-endian word of four wire bytes gives the
      fields that the standard places in those bytes. */
  lemma FieldsOnWire(data: seq<bv8>, i: nat)
    requires i + 4 <= |data|
    ensures var h, w := Header(Bytes.LoadWord(data, i)), Iso.WireAt(data, i);
      && (h.Sync0() == 0xFF && h.Sync1() == 7 <==> w.HasSync())
      && h.Protection() == w.ProtectionBit() as bv32
      && h.Layer() == w.LayerCode() as bv32
      && h.Version() == w.Version() as bv32
      && h.Private() == w.PrivateBit() as bv32
      && h.Padding() == w.PaddingBit() as bv32
      && h.Sampling() == w.SamplingIndex() as bv32
      && h.Bitrate() == w.BitrateIndex() as bv32
      && h.Emphasis() == w.Emphasis() as bv32
      && h.Original() == w.OriginalBit() as bv32
      && h.Copyright() == w.CopyrightBit() as bv32
      && h.Extension() == w.ModeExtension() as bv32
      && h.Channel() == w.ChannelMode() as bv32
  {
  }

  /** isValid is exactly the validity of the standard, free format allowed:
      the sync mask, the reserved version, layer, bitrate, sampling and
      emphasis codes, and the MPEG-1 Layer II bitrate/mode table. */
  lemma IsValidMatchesIso(data: seq<bv8>, i: nat)
    requires i + 4 <= |data|
    ensures Header(Bytes.LoadWord(data, i)).IsValid() <==> Iso.Valid(Iso.WireAt(data, i), true)
  {
    var h, w := Header(Bytes.LoadWord(data, i)), Iso.WireAt(data, i);
    FieldsOnWire(data, i);
    if w.HasSync() && w.Version() == Iso.V1 && w.LayerCode() == 2 && w.BitrateIndex() != Iso.BitrateBad {
      var k := w.BitrateIndex() as int;
      assert h.Bitrate() as int == k;
      assert h.Channel() == ChannelMono <==> w.ChannelMode() == Iso.Mono;
      assert Consistent[k][1] <==> Iso.V1Layer2ModeAllowed(Iso.V1Layer2Kbps[k], true);
      assert Consistent[k][0] <==> Iso.V1Layer2ModeAllowed(Iso.V1Layer2Kbps[k], false);
    }
  }

  /** A free-format MPEG-1 Layer III header is valid in this revision. */
  lemma FreeFormatIsValid()
    ensures Header(0x1B00FBFF).IsValid() && Header(0x1B00FBFF).IsFreeBitrate()
  {
  }

  /** Bits outside the comparison mask (bitrate, padding, private,
      protection, copyright, original, mode extension, sync) never change
      the result of the comparison. */
  lemma EqualsIgnoresUnmaskedBits(a: Header, b: Header, flip: bv32)
    requires flip & CmpMask == 0
    ensures Header(a.uCell ^ flip).Equals(b) == a.Equals(b)
  {
  }

  /** The comparison is an equivalence relation. */
  lemma EqualsIsEquivalence(a: Header, b: Header, c: Header)
    ensures a.Equals(a)
    ensures a.Equals(b) ==> b.Equals(a)
    ensures a.Equals(b) && b.Equals(c) ==> a.Equals(c)
  {
  }
}
