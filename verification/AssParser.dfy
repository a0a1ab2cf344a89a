/** libsubtitle/subtitle/parser/AssParser.cpp with libsubtitle/utils/StreamUtils.h: packets taken off
    the byte stream. Splitting ASS event fields is not part of this model. */
module AssParsers {
  import opened Bytes
  import opened CodecIds
  import opened DataSources

  const PARSER_SYNC_WORD := 0x414D4C55
  const MIN_HEADER_DATA_SIZE := 24

  const TYPE_SSA := 3
  const TYPE_TMD_TXT := 5

  datatype Spu = Spu(subtitleType: int, bufferSize: nat, pts: int, delay: int, text: seq<byte>)

  datatype Outcome =
    | NoData                       // too few bytes: nothing was read
    | Rejected                     // not a packet, or not a text type
    | RestKept(restLen: int)       // a DVD or VOB packet: its bytes are counted in mRestLen
    | Parsed(codec: nat, spu: Spu) // SSA and ASS text is split into fields afterwards
    | Undefined                    // the source copies past a buffer

  /** m_delay: the end time, or zero when no duration was given. */
  function EndTime(pts: int, duration: nat): int {
    if duration == 0 then 0 else Wrap64(duration + pts)
  }

  function ParseBody(codec: nat, pts: int, duration: nat, payload: seq<byte>): (out: Outcome)
    ensures out.Parsed? || out.Rejected? || (codec == CODEC_MOV_TEXT && |payload| < 2 && out.Undefined?)
  {
    if codec in {CODEC_TEXT, CODEC_SSA, CODEC_SUBRIP, CODEC_ASS, CODEC_WEBVTT} then
      Parsed(codec, Spu(TYPE_SSA, |payload| + 1, pts, EndTime(pts, duration), payload))
    else if codec == CODEC_MOV_TEXT then
      // two bytes of text length come first
      if |payload| < 2 then Undefined
      else if |payload| == 2 then Rejected
      else Parsed(codec, Spu(TYPE_TMD_TXT, |payload| + 1, pts, EndTime(pts, duration), payload[2..]))
    else Rejected
  }

  /** What one call makes of the available bytes, and the bytes it leaves. */
  function TakePacket(s: seq<byte>): (r: (Outcome, seq<byte>))
    ensures |r.1| <= |s|
  {
    if |s| < MIN_HEADER_DATA_SIZE then (NoData, s) else TakeBody(s[..20], s[20..])
  }

  /** The same once the first twenty bytes are read: h is those bytes, t the bytes after them. */
  function TakeBody(h: seq<byte>, t: seq<byte>): (r: (Outcome, seq<byte>))
    requires |h| == 20
    ensures |r.1| <= |t|
  {
    if BE(h[..4]) != PARSER_SYNC_WORD then (Rejected, [])
    else
      var codec := BE(h[4..8]) % 0x100_0000;
      var len := BE(h[8..12]);
      if len > |t| then (Rejected, [])
      else if codec == CODEC_DVD || codec == CODEC_VOB then
        (RestKept(|t| - (if codec == CODEC_VOB then 4 else 0)), [])
      else if len + 4 > |t| then (Undefined, t)
      else (ParseBody(codec, Wrap64(BE(h[12..20])), BE(t[..4]), t[4..4 + len]), t[4 + len..])
  }

  /** What a call makes of the bytes that are there, and the bytes it leaves: the layout of a packet byte by
      byte. Plain text (0x17002), SSA (0x17004), SubRip (0x17808), WebVTT (0x17809) and ASS (0x1780d) keep the
      whole payload, MOV_TEXT (0x17005) all but its first two bytes; DVD (0x17000) and VOB (0x1700a) packets are
      only counted. */
  ghost predicate ReadsAs(s: seq<byte>, out: Outcome, rest: seq<byte>) {
    if |s| < 24 then out == NoData && rest == s
    else if s[..4] != [0x41, 0x4D, 0x4C, 0x55] || BE(s[8..12]) > |s| - 20 then out == Rejected && rest == []
    else
      var codec, len, pts, duration := BE(s[5..8]), BE(s[8..12]), Wrap64(BE(s[12..20])), BE(s[20..24]);
      var end := if duration == 0 then 0 else Wrap64(pts + duration);
      if codec == 0x17000 then out == RestKept(|s| - 20) && rest == []
      else if codec == 0x1700a then out == RestKept(|s| - 24) && rest == []
      else if 24 + len > |s| then out == Undefined
      else
        && rest == s[24 + len..]
        && (codec in {0x17002, 0x17004, 0x17808, 0x17809, 0x1780d} ==>
              out == Parsed(codec, Spu(3, len + 1, pts, end, s[24..24 + len])))
        && (codec == 0x17005 && len > 2 ==> out == Parsed(codec, Spu(5, len + 1, pts, end, s[26..24 + len])))
        && (codec == 0x17005 && len == 2 ==> out == Rejected)
        && (codec == 0x17005 && len < 2 ==> out == Undefined)
        && (codec !in {0x17002, 0x17004, 0x17005, 0x17808, 0x17809, 0x1780d} ==> out == Rejected)
  }

  lemma TakeReads(s: seq<byte>)
    ensures ReadsAs(s, TakePacket(s).0, TakePacket(s).1)
  {
    hide BE, Wrap64;
    if |s| >= 24 {
      var h, t := s[..20], s[20..];
      assert h[..4] == s[..4] && h[4..8] == s[4..8] && h[8..12] == s[8..12] && h[12..20] == s[12..20];
      SyncBytes(s[..4]);
      CodecBytes(s[4..8]);
      assert s[4..8][1..] == s[5..8];
      assert t[..4] == s[20..24];
      var len := BE(s[8..12]);
      if len + 4 <= |t| {
        assert t[4..4 + len] == s[24..24 + len] && t[4 + len..] == s[24 + len..];
        assert len >= 2 ==> s[24..24 + len][2..] == s[26..24 + len];
      }
    }
  }

  /** Four bytes and their big-endian value determine each other. */
  lemma SyncBytes(w: seq<byte>)
    requires |w| == 4
    ensures BE(w) == 0x414D4C55 <==> w == [0x41, 0x4D, 0x4C, 0x55]
  {
    FourBytes(w);
  }

  lemma FourBytes(w: seq<byte>)
    requires |w| == 4
    ensures BE(w) == w[0] as int * 0x100_0000 + w[1] as int * 0x1_0000 + w[2] as int * 0x100 + w[3] as int
  {
    var a, b, c := w[..3], w[..3][..2], w[..3][..2][..1];
    assert a == [w[0], w[1], w[2]] && b == [w[0], w[1]] && c == [w[0]];
    assert BE(c) == w[0] as int;
    assert BE(b) == 256 * BE(c) + w[1] as int;
    assert BE(a) == 256 * BE(b) + w[2] as int;
  }

  /** The lower three bytes of a word are what remains modulo 2^24. */
  lemma CodecBytes(w: seq<byte>)
    requires |w| == 4
    ensures BE(w) % 0x100_0000 == BE(w[1..])
  {
    FourBytes(w);
    var v := w[1..];
    var b, c := v[..2], v[..2][..1];
    assert b == [w[1], w[2]] && c == [w[1]];
    assert BE(c) == w[1] as int;
    assert BE(b) == 256 * BE(c) + w[2] as int;
    assert BE(v) == 256 * BE(b) + w[3] as int;
  }

  lemma ShiftIn(x: int, b: byte)
    ensures Wrap32(256 * Wrap32(x) + b) == Wrap32(256 * x + b)
    ensures (256 * (x % TWO64) + b) % TWO64 == (256 * x + b) % TWO64
  {
    var k := if Wrap32(x) == x % TWO32 then x / TWO32 else x / TWO32 + 1;
    assert 256 * x + b == (256 * Wrap32(x) + b) + TWO32 * (256 * k);
    ModShift(256 * Wrap32(x) + b, TWO32, 256 * k);
    assert 256 * x + b == (256 * (x % TWO64) + b) + TWO64 * (256 * (x / TWO64));
    ModShift(256 * (x % TWO64) + b, TWO64, 256 * (x / TWO64));
  }

  lemma ModShift(a: int, m: int, k: int)
    requires m > 0
    ensures (a + m * k) % m == a % m
  {
    assert a + m * k == m * (a / m + k) + a % m;
    ModUnique(a + m * k, m, a / m + k, a % m);
  }

  /** subPeekAsInt32 */
  method SubPeekAsInt32(buffer: seq<byte>) returns (value: int)
    requires |buffer| >= 4
    ensures value == Wrap32(BE(buffer[..4]))
  {
    value := 0;
    for i := 0 to 4
      invariant value == Wrap32(BE(buffer[..i]))
    {
      ShiftIn(BE(buffer[..i]), buffer[i]);
      assert buffer[..i + 1][..i] == buffer[..i];
      value := Wrap32(256 * value + buffer[i]);
    }
  }

  /** subPeekAsInt64 */
  method SubPeekAsInt64(buffer: seq<byte>) returns (value: nat)
    requires |buffer| >= 8
    ensures value == BE(buffer[..8])
  {
    value := 0;
    for i := 0 to 8
      invariant value == BE(buffer[..i]) % TWO64
    {
      ShiftIn(BE(buffer[..i]), buffer[i]);
      assert buffer[..i + 1][..i] == buffer[..i];
      value := (256 * value + buffer[i]) % TWO64;
    }
    BEBound(buffer[..8]);
    Pow256Values();
  }

  lemma WordViews(w: seq<byte>)
    requires |w| == 4
    ensures w[..4] == w
    ensures Wrap32(BE(w)) % TWO32 == BE(w)
    ensures Wrap32(BE(w)) % 0x100_0000 == BE(w) % 0x100_0000
    ensures Wrap32(BE(w)) == PARSER_SYNC_WORD <==> BE(w) == PARSER_SYNC_WORD
  {
    hide BE;
    BEBound(w);
    Pow256Values();
  }

  /** The four header fields of the first twenty bytes. */
  method PeekHeader(header: seq<byte>) returns (syncWord: int, codec: nat, len: nat, pts: int)
    requires |header| == 20
    ensures syncWord == PARSER_SYNC_WORD <==> BE(header[..4]) == PARSER_SYNC_WORD
    ensures codec == BE(header[4..8]) % 0x100_0000
    ensures len == BE(header[8..12])
    ensures pts == Wrap64(BE(header[12..20]))
  {
    hide BE, Wrap32, Wrap64;
    syncWord := SubPeekAsInt32(header[..4]);
    WordViews(header[..4]);
    var word := SubPeekAsInt32(header[4..8]);
    WordViews(header[4..8]);
    codec := word % 0x100_0000;
    word := SubPeekAsInt32(header[8..12]);
    WordViews(header[8..12]);
    len := word % TWO32;
    var long := SubPeekAsInt64(header[12..20]);
    assert header[12..20][..8] == header[12..20];
    pts := Wrap64(long);
  }

  datatype ParserState = Init | Playing | Stop

  class AssParser {
    const source: ExternalDataSource
    var state: ParserState
    var restLen: int

    constructor (source: ExternalDataSource)
      ensures this.source == source && state == Init && restLen == 0
    {
      this.source := source;
      state, restLen := Init, 0;
    }

    /** getSpu. A non-zero mRestLen makes the next call copy from mRestbuf, which is never set, so
        the call is defined only while it is zero. */
    method GetSpu() returns (out: Outcome)
      requires source.Valid() && source.Running() && restLen == 0 && !state.Stop?
      modifies this, source`currentItem, source`state, source.segment
      ensures source.Valid() && source.Running() && state.Playing?
      ensures (out, source.Stream()) == TakePacket(old(source.Stream()))
      ensures ReadsAs(old(source.Stream()), out, source.Stream())
      ensures restLen == if out.RestKept? then out.restLen else 0
    {
      hide BE, Wrap64, TakeBody, ReadsAs;
      state := Playing;
      ghost var s := source.Stream();
      TakeReads(s);
      var dataSize := source.AvailableDataSize();
      if dataSize < MIN_HEADER_DATA_SIZE {
        return NoData;
      }
      var spuBuf := new byte[dataSize](_ => 0);
      Fill(spuBuf, 0, 20);
      var header := spuBuf[..20];
      assert header == s[..20];
      out := ParsePacket(spuBuf, header, dataSize - 20);
    }

    /** The rest of getSpu, after the first twenty bytes. */
    method ParsePacket(spuBuf: array<byte>, header: seq<byte>, dataSize: nat) returns (out: Outcome)
      requires source.Valid() && source.Running() && restLen == 0
      requires |header| == 20 && dataSize == |source.Stream()| && spuBuf.Length == dataSize + 20
      modifies this`restLen, source`currentItem, source`state, source.segment, spuBuf
      ensures source.Valid() && source.Running()
      ensures (out, source.Stream()) == TakeBody(header, old(source.Stream()))
      ensures restLen == if out.RestKept? then out.restLen else 0
    {
      hide BE, Wrap64, ParseBody;
      ghost var t := source.Stream();
      assert t[dataSize..] == [];
      var syncWord, codec, len, pts := PeekHeader(header);
      if syncWord != PARSER_SYNC_WORD {
        Fill(spuBuf, 0, dataSize);
        return Rejected;
      }
      if len > dataSize {
        Fill(spuBuf, 0, dataSize);
        return Rejected;
      }
      if codec == CODEC_DVD || codec == CODEC_VOB {
        Fill(spuBuf, 20, dataSize);
        restLen := if codec == CODEC_VOB then dataSize - 4 else dataSize;
        return RestKept(restLen);
      }
      if len + 4 > dataSize {
        return Undefined;
      }
      var duration, payload := ReadBody(spuBuf, len);
      out := ParseBody(codec, pts, duration, payload);
    }

    method ReadBody(spuBuf: array<byte>, len: nat) returns (duration: nat, payload: seq<byte>)
      requires source.Valid() && source.Running()
      requires len + 4 <= |source.Stream()| && len + 24 <= spuBuf.Length
      modifies source`currentItem, source`state, source.segment, spuBuf
      ensures source.Valid() && source.Running()
      ensures duration == BE(old(source.Stream())[..4]) && payload == old(source.Stream())[4..4 + len]
      ensures source.Stream() == old(source.Stream())[4 + len..]
    {
      hide BE, Wrap32;
      Fill(spuBuf, 20, len + 4);
      var body := spuBuf[20..24 + len];
      assert body == old(source.Stream())[..len + 4];
      var word := SubPeekAsInt32(body[..4]);
      WordViews(body[..4]);
      assert body[..4] == old(source.Stream())[..4];
      duration, payload := word % TWO32, body[4..];
    }

    /** A read the available bytes are enough for. */
    method Fill(dst: array<byte>, off: nat, size: nat)
      requires source.Valid() && source.Running()
      requires off + size <= dst.Length && size <= |source.Stream()|
      modifies source`currentItem, source`state, source.segment, dst
      ensures source.Valid() && source.Running()
      ensures dst[..] == Patch(old(dst[..]), off, old(source.Stream())[..size])
      ensures source.Stream() == old(source.Stream())[size..]
    {
      ghost var s := source.Stream();
      var _, _ := source.Read(dst, off, size, []);
      assert s + Concat([]) == s;
      assert source.Stream() + Concat([]) == source.Stream();
    }
  }
}
