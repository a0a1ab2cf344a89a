/** client/SubtitleReportAPI.cpp: the sending side of the report pipeline. */
module SubtitleReports {
  import opened Bytes
  import opened CodecIds
  import opened IpcFrames

  const PACKET_HEADER_SIZE := 24

  datatype Status = StatOk | StatInv

  /** What one SubSource_SendData call is asked to send. */
  datatype Request = Request(data: seq<byte>, pts: int, codec: nat)

  /** What it puts on the wire. */
  datatype Packet = Packet(codec: nat, pts: int, duration: int, data: seq<byte>)

  predicate Accepted(r: Request) {
    r.data != [] && r.codec != CODEC_XSUB
  }

  function WireCodec(codec: nat): nat {
    if codec == CODEC_DVD then CODEC_VOB else codec
  }

  /** The last duration is a global that plain text and SRT/ASS packets clear. */
  function DurationAfter(last: int, r: Request): int {
    if Accepted(r) && r.codec in {CODEC_TEXT, CODEC_ASS, CODEC_SUBRIP} then 0 else last
  }

  function PacketOf(last: int, r: Request): Packet {
    Packet(WireCodec(r.codec), r.pts, DurationAfter(last, r), r.data)
  }

  function SubTypeOf(codec: nat): int {
    if codec == CODEC_DVD then 0
    else if codec == CODEC_HDMV_PGS then 1
    else if codec == CODEC_XSUB then 2
    else if codec in {CODEC_TEXT, CODEC_SSA, CODEC_ASS} then 3
    else if codec == CODEC_DVB then 5
    else if codec == CODEC_MOV_TEXT then 7
    else if codec == CODEC_TELETEXT then 9
    else if codec == CODEC_TTML then 18
    else if codec == CODEC_SMPTE_TTML then 20
    else 4
  }

  /** The type numbers by codec number: DVD 0, PGS 1, XSUB 2, text, SSA and ASS 3, DVB 5, MOV_TEXT 7, teletext 9, TTML
      18, SMPTE-TT 20, and 4 for every other. */
  lemma SubTypeExactly(codec: nat)
    ensures SubTypeOf(codec) ==
            if 0x17000 <= codec <= 0x17007 then [0, 5, 3, 2, 3, 7, 1, 9][codec - 0x17000]
            else if codec == 0x1780d then 3
            else if codec == 0x1780f then 18
            else if codec == 0x17810 then 20
            else 4
  {
  }

  /** The big-endian packet header: sync word, a filler byte, codec, length, pts, duration. */
  function PacketHeader(codec: int, len: int, pts: int, duration: int): (h: seq<byte>)
    ensures |h| == PACKET_HEADER_SIZE
  {
    [0x41, 0x4d, 0x4c, 0x55, 0x77] + BEBytes(codec, 3) + BEBytes(len, 4) + BEBytes(pts, 8) + BEBytes(duration, 4)
  }

  function PacketBytes(p: Packet): (s: seq<byte>)
    ensures |s| == PACKET_HEADER_SIZE + |p.data|
  {
    PacketHeader(p.codec, |p.data|, p.pts, p.duration) + p.data
  }

  function PacketFrame(sessionId: int, p: Packet): Frame {
    Frame(sessionId, SUBTITLE_DATA, PacketBytes(p))
  }

  class SubtitleReport {
    const sId: int
    var lastDuration: int
    var subType: int
    var sent: seq<byte>   // every byte handed to the socket

    constructor (sId: int)
      ensures this.sId == sId && lastDuration == 0 && sent == []
    {
      this.sId := sId;
      lastDuration, subType, sent := 0, 0, [];
    }

    /** SubSource_SendData. The lengths are ints, so the frame must fit one. */
    method SendData(r: Request) returns (status: Status)
      requires |r.data| + PACKET_HEADER_SIZE + HEADER_SIZE < 0x8000_0000
      modifies this
      ensures status == if Accepted(r) then StatOk else StatInv
      ensures sent == old(sent) + if Accepted(r) then Encode(PacketFrame(sId, PacketOf(old(lastDuration), r))) else []
      ensures lastDuration == DurationAfter(old(lastDuration), r)
      ensures subType == if r.data == [] then old(subType) else SubTypeOf(r.codec)
    {
      hide Header, PacketHeader;
      assert sent + [] == sent;
      var dataSize := |r.data|;
      if dataSize <= 0 {
        return StatInv;
      }
      subType := SubTypeOf(r.codec);
      var codec := r.codec;
      if codec == CODEC_DVD {
        codec := CODEC_VOB;
      } else if codec == CODEC_TEXT {
        lastDuration := 0;
      } else if codec == CODEC_ASS || codec == CODEC_SUBRIP {
        lastDuration := 0;
      } else if codec == CODEC_XSUB {
        return StatInv;
      }
      var subHeader := FillPacketHeader(codec, dataSize, r.pts, lastDuration);
      var frame := BuildFrame(SUBTITLE_DATA, subHeader + r.data);
      sent := sent + frame;
      return StatOk;
    }

    /** The header bytes, each by its own shift and mask. */
    method FillPacketHeader(codec: nat, dataSize: nat, pts: int, duration: int) returns (h: seq<byte>)
      ensures h == PacketHeader(codec, dataSize, pts, duration)
    {
      hide BEBytes, ByteAt;
      var c := [ByteAt(codec, 2), ByteAt(codec, 1), ByteAt(codec, 0)];
      var l := [ByteAt(dataSize, 3), ByteAt(dataSize, 2), ByteAt(dataSize, 1), ByteAt(dataSize, 0)];
      var t := [ByteAt(pts, 7), ByteAt(pts, 6), ByteAt(pts, 5), ByteAt(pts, 4),
                ByteAt(pts, 3), ByteAt(pts, 2), ByteAt(pts, 1), ByteAt(pts, 0)];
      var d := [ByteAt(duration, 3), ByteAt(duration, 2), ByteAt(duration, 1), ByteAt(duration, 0)];
      ShiftedBytes(codec, c);
      ShiftedBytes(dataSize, l);
      ShiftedBytes(pts, t);
      ShiftedBytes(duration, d);
      h := [0x41, 0x4d, 0x4c, 0x55, 0x77] + c + l + t + d;
    }

    /** malloc, makeHeader and the copies behind it. */
    method BuildFrame(pkgType: nat, payload: seq<byte>) returns (frame: seq<byte>)
      ensures frame == Header(sId, pkgType, |payload|) + payload
    {
      hide Header;
      var data := new byte[HEADER_SIZE + |payload|](_ => 0);
      forall k | 0 <= k < |payload| {
        data[HEADER_SIZE + k] := payload[k];
      }
      assert data[HEADER_SIZE..] == payload;
      MakeHeader(data, sId, pkgType, |payload|);
      frame := data[..];
    }

    method ReportTotalTracks(trackNum: int)
      modifies this`sent
      ensures sent == old(sent) + Encode(Frame(sId, 0x5354_4F54, LEBytes(trackNum, 4)))
    {
      SendReport(SUBTITLE_TOTAL, LEBytes(trackNum, 4));
    }

    method ReportType(kind: int)
      modifies this`sent
      ensures sent == old(sent) + Encode(Frame(sId, 0x5354_5950, LEBytes(kind, 4)))
    {
      SendReport(SUBTITLE_TYPE, LEBytes(kind, 4));
    }

    method ReportRenderTime(timeUs: int)
      modifies this`sent
      ensures sent == old(sent) + Encode(Frame(sId, 0x5352_4454, LEBytes(timeUs, 8)))
    {
      SendReport(SUBTITLE_RENDER_TIME, LEBytes(timeUs, 8));
    }

    method ReportStartPts(pts: int)
      modifies this`sent
      ensures sent == old(sent) + Encode(Frame(sId, 0x5350_5453, LEBytes(pts, 8)))
    {
      SendReport(SUBTITLE_START_PTS, LEBytes(pts, 8));
    }

    method SendReport(pkgType: nat, payload: seq<byte>)
      modifies this`sent
      ensures sent == old(sent) + Encode(Frame(sId, pkgType, payload))
    {
      hide Header;
      var frame := BuildFrame(pkgType, payload);
      sent := sent + frame;
    }
  }

  lemma ShiftedBytes(v: int, w: seq<byte>)
    requires forall i | 0 <= i < |w| :: w[i] == ByteAt(v, |w| - 1 - i)
    ensures w == BEBytes(v, |w|)
  {
    hide BEBytes, ByteAt;
    forall i | 0 <= i < |w|
      ensures w[i] == BEBytes(v, |w|)[i]
    {
      BEBytesAt(v, |w|, i);
    }
  }
}
