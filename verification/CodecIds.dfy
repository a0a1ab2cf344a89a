/** Codec numbers: CODEC_ID_* in client/SubtitleReportAPI.h, AV_CODEC_ID_* in
    libsubtitle/subtitle/parser/ParserFactory.h, with the same values. */
module CodecIds {
  const CODEC_DVD := 0x17000
  const CODEC_DVB := 0x17001
  const CODEC_TEXT := 0x17002
  const CODEC_XSUB := 0x17003
  const CODEC_SSA := 0x17004
  const CODEC_MOV_TEXT := 0x17005
  const CODEC_HDMV_PGS := 0x17006
  const CODEC_TELETEXT := 0x17007
  const CODEC_VOB := 0x1700a
  const CODEC_SUBRIP := 0x17808
  const CODEC_WEBVTT := 0x17809
  const CODEC_ASS := 0x1780d
  const CODEC_TTML := 0x1780f
  const CODEC_SMPTE_TTML := 0x17810
}
