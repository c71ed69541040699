/** How the two header revisions relate. header_raw.h accepts every header
    that header.cpp accepts, and also free-format ones; on the fields both
    read they agree. */
module Revisions {
  import HeaderRaw
  import MpegHeader

  /** The older validity is the newer one with free format refused. */
  lemma OlderIsNewerWithoutFree(raw: bv32)
    ensures MpegHeader.IsValidInternal(raw)
        <==> HeaderRaw.Header(raw).IsValid() && !HeaderRaw.Header(raw).IsFreeBitrate()
  {
    var h := HeaderRaw.Header(raw);
    assert (raw & 0x0600 == 0) == (h.Layer() == HeaderRaw.LayerReserved);
    assert (raw & 0xF00000 == 0) == h.IsFreeBitrate();
    assert (!raw & 0xF00000 == 0) == (h.Bitrate() == HeaderRaw.BitrateBad);
    assert (!raw & 0x0C0000 == 0) == (h.Sampling() == HeaderRaw.SamplingRateReserved);
    assert ((raw & 0x1800) == 0x0800) == (h.Version() == HeaderRaw.VersionReserved);
    assert ((raw & 0x03000000) == 0x02000000) == (h.Emphasis() == HeaderRaw.EmphasisReserved);
    assert ((raw & 0x1800) == 0x1800) == (h.Version() == HeaderRaw.VersionV1);
    assert ((raw & 0x0600) == 0x0400) == (h.Layer() == HeaderRaw.Layer2);
    assert (raw >> 20) & 0x0F == h.Bitrate() && (raw >> 30) & 0x3 == h.Channel();
  }

  /** 0x1B00FBFF, a free-format MPEG-1 Layer III header, is where they part. */
  lemma FreeFormatSplitsRevisions()
    ensures HeaderRaw.Header(0x1B00FBFF).IsValid()
    ensures !MpegHeader.Make(0x1B00FBFF).valid
  {
  }

  /** Both read the same bits for the version class, the protection flag and
      the stream comparison. */
  lemma RevisionsAgreeOnFields(a: bv32, b: bv32)
    ensures HeaderRaw.Header(a).IsV2() == MpegHeader.CalcMpegVersion(a).IsV2()
    ensures HeaderRaw.Header(a).IsProtected() == MpegHeader.Make(a).IsProtected()
    ensures HeaderRaw.Header(a).Equals(HeaderRaw.Header(b)) == MpegHeader.Make(a).Equals(MpegHeader.Make(b))
  {
  }
}
