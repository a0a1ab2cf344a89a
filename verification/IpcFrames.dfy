/** The frame layout shared by the report client and both receivers
    (libsubtitle/ipc/IpcDataTypes.h, client/SubtitleReportAPI.cpp). */
module IpcFrames {
  import opened Bytes

  const START_FLAG := 0xF0D0C0B1
  const MAGIC_FLAG := 0xCFFFFFFB
  const HEADER_SIZE := 20

  const SUBTITLE_TOTAL := 0x53544F54
  const SUBTITLE_START_PTS := 0x53505453
  const SUBTITLE_RENDER_TIME := 0x53524454
  const SUBTITLE_TYPE := 0x53545950
  const SUBTITLE_TYPE_STRING := 0x54505352
  const SUBTITLE_LANG_STRING := 0x4C475352
  const SUBTITLE_DATA := 0x504C4454
  const SUBTITLE_RESET_SERVER := 0x43545244
  const SUBTITLE_EXIT_SERVER := 0x43444558

  /** peekAsSocketWord, with plain char unsigned and a little-endian host. */
  function PeekWord(s: seq<byte>, at: nat): (w: nat)
    requires at + 4 <= |s|
    ensures w < TWO32
  {
    s[at] as int + 0x100 * s[at + 1] as int + 0x1_0000 * s[at + 2] as int + 0x100_0000 * s[at + 3] as int
  }

  lemma PeekWordIsLE(s: seq<byte>, at: nat)
    requires at + 4 <= |s|
    ensures PeekWord(s, at) == LE(s[at..at + 4])
  {
    var w := s[at..at + 4];
    assert LE(w) == w[0] + 256 * LE(w[1..]);
    assert LE(w[1..]) == w[1] + 256 * LE(w[1..][1..]);
    assert LE(w[1..][1..]) == w[2] + 256 * LE(w[1..][1..][1..]);
    assert LE(w[1..][1..][1..]) == w[3] + 256 * LE([]);
  }

  lemma PeekWordSame(s: seq<byte>, at: nat, t: seq<byte>, at': nat)
    requires at + 4 <= |s| && at' + 4 <= |t|
    requires s[at..at + 4] == t[at'..at' + 4]
    ensures PeekWord(s, at) == PeekWord(t, at')
  {
    var w, w' := s[at..at + 4], t[at'..at' + 4];
    assert s[at] == w[0] && s[at + 1] == w[1] && s[at + 2] == w[2] && s[at + 3] == w[3];
    assert t[at'] == w'[0] && t[at' + 1] == w'[1] && t[at' + 2] == w'[2] && t[at' + 3] == w'[3];
  }

  lemma PeekWordLeft(a: seq<byte>, b: seq<byte>, at: nat)
    requires at + 4 <= |a|
    ensures PeekWord(a + b, at) == PeekWord(a, at)
  {
    assert (a + b)[at..at + 4] == a[at..at + 4];
    PeekWordSame(a + b, at, a, at);
  }

  lemma PeekWordRight(a: seq<byte>, b: seq<byte>, at: nat)
    requires at + 4 <= |b|
    ensures PeekWord(a + b, |a| + at) == PeekWord(b, at)
  {
    assert (a + b)[|a| + at..|a| + at + 4] == b[at..at + 4];
    PeekWordSame(a + b, |a| + at, b, at);
  }

  /** A frame as the sender describes it. */
  datatype Frame = Frame(sessionId: int, pkgType: nat, payload: seq<byte>) {
    predicate Valid() {
      pkgType < TWO32 && |payload| < 0x8000_0000
    }
  }

  function Header(sessionId: int, pkgType: int, payloadSize: int): (h: seq<byte>)
    ensures |h| == HEADER_SIZE
  {
    LEBytes(START_FLAG, 4) + LEBytes(sessionId, 4) + LEBytes(MAGIC_FLAG, 4) + LEBytes(payloadSize, 4)
    + LEBytes(pkgType, 4)
  }

  function Encode(f: Frame): (s: seq<byte>)
    ensures |s| == HEADER_SIZE + |f.payload|
  {
    Header(f.sessionId, f.pkgType, |f.payload|) + f.payload
  }

  function EncodeAll(fs: seq<Frame>): seq<byte> {
    if fs == [] then [] else Encode(fs[0]) + EncodeAll(fs[1..])
  }

  /** The buffer handed to a listener: the package type and then the payload. */
  function ListenerBuffer(pkgType: int, payload: seq<byte>): seq<byte> {
    LEBytes(pkgType, 4) + payload
  }

  function ListenerBuffers(fs: seq<Frame>): (bs: seq<seq<byte>>)
    ensures |bs| == |fs|
  {
    if fs == [] then [] else [ListenerBuffer(fs[0].pkgType, fs[0].payload)] + ListenerBuffers(fs[1..])
  }

  /** The five words of a header read back as they were written, whatever follows it. */
  lemma HeaderWords(sessionId: int, pkgType: int, payloadSize: int, rest: seq<byte>)
    ensures var s := Header(sessionId, pkgType, payloadSize) + rest;
            && PeekWord(s, 0) == START_FLAG == 0xF0D0_C0B1
            && PeekWord(s, 4) == sessionId % TWO32
            && PeekWord(s, 8) == MAGIC_FLAG == 0xCFFF_FFFB
            && PeekWord(s, 12) == payloadSize % TWO32
            && PeekWord(s, 16) == pkgType % TWO32
  {
    var s := Header(sessionId, pkgType, payloadSize) + rest;
    WordAt(s, 0, START_FLAG);
    WordAt(s, 4, sessionId);
    WordAt(s, 8, MAGIC_FLAG);
    WordAt(s, 12, payloadSize);
    WordAt(s, 16, pkgType);
  }

  lemma WordAt(s: seq<byte>, at: nat, v: int)
    requires at + 4 <= |s| && s[at..at + 4] == LEBytes(v, 4)
    ensures PeekWord(s, at) == v % TWO32
  {
    PeekWordIsLE(s, at);
    LERoundTrip(v, 4);
    Pow256Values();
  }

  /** makeHeader: fills the first HEADER_SIZE bytes of the caller's buffer. */
  method MakeHeader(buf: array<byte>, sessionId: int, pkgType: int, payloadSize: int)
    requires buf.Length >= HEADER_SIZE
    modifies buf
    ensures buf[..] == Header(sessionId, pkgType, payloadSize) + old(buf[HEADER_SIZE..])
  {
    hide LEBytes;
    CopyWord(buf, 0, START_FLAG);
    CopyWord(buf, 4, sessionId);
    CopyWord(buf, 8, MAGIC_FLAG);
    CopyWord(buf, 12, payloadSize);
    CopyWord(buf, 16, pkgType);
  }

  method CopyWord(buf: array<byte>, at: nat, v: int)
    requires at + 4 <= buf.Length
    modifies buf
    ensures forall i | 0 <= i < buf.Length ::
              buf[i] == if at <= i < at + 4 then LEBytes(v, 4)[i - at] else old(buf[i])
  {
    var w := LEBytes(v, 4);
    forall k | 0 <= k < 4 {
      buf[at + k] := w[k];
    }
  }
}
