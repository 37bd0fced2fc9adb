/**
 * The WAG trace format: frame reading from a trace file (header read, magic
 * check, body read, setting the packet's header and payload), the device reader's magic check,
 * the per-packet field accessors, and output option handling.
 *
 * The layout of `struct frame_t` and `struct frame_data_rx_t` is not part of
 * this model. The reader relies only on the header starting with the 16-bit
 * big-endian `magic` and `size` fields; the accessors work on the already
 * decoded fields of a received frame.
 */
module FormatWag {
  import opened Uints

  /** The magic number every WAG frame header starts with. */
  const WagMagic: uint16 := 0xdaa1
  /** sizeof(struct frame_t), assumed to be 8 bytes. */
  const FrameHeaderSize: nat := 8
  /** sizeof(struct frame_data_rx_t), the framing length in front of the payload. */
  const FramingLength: nat := 24
  /** LIBTRACE_PACKET_BUFSIZE, the size of a library-allocated packet buffer. */
  const PacketBufSize: nat := 65536

  /** The library error codes this format sets. */
  datatype TraceErr = IoError | BadPacket | UnknownOption | OptionUnavailable | NoConversion

  datatype Option<T> = None | Some(value: T)

  // ---------------------------------------------------------------------------
  // Frame header bytes
  // ---------------------------------------------------------------------------

  /** ntohs on two bytes in network order. */
  function BigEndian16(hi: uint8, lo: uint8): uint16 {
    hi * 0x100 + lo
  }

  /** The header's `magic` field, in host order. */
  function FrameMagic(b: seq<uint8>): uint16
    requires |b| >= FrameHeaderSize
  {
    BigEndian16(b[0], b[1])
  }

  /** The header's `size` field, in host order: the whole frame's length, header included. */
  function FrameSize(b: seq<uint8>): uint16
    requires |b| >= FrameHeaderSize
  {
    BigEndian16(b[2], b[3])
  }

  /** A frame header with the given magic and size; `fill` stands for the header's remaining fields. */
  function HeaderBytes(magic: uint16, size: uint16, fill: seq<uint8>): (b: seq<uint8>)
    requires |fill| == FrameHeaderSize - 4
    ensures |b| == FrameHeaderSize
  {
    [magic / 0x100, magic % 0x100, size / 0x100, size % 0x100] + fill
  }

  lemma HeaderBytesDecode(magic: uint16, size: uint16, fill: seq<uint8>, more: seq<uint8>)
    requires |fill| == FrameHeaderSize - 4
    ensures FrameMagic(HeaderBytes(magic, size, fill) + more) == magic
    ensures FrameSize(HeaderBytes(magic, size, fill) + more) == size
  {
  }

  // ---------------------------------------------------------------------------
  // Reading one frame from a trace file (wtf_read_packet)
  // ---------------------------------------------------------------------------

  datatype ReadOutcome = EndOfTrace | ReadFailed(err: TraceErr) | FrameRead(frame: seq<uint8>)

  /** The value wtf_read_packet returns: 0 at end of trace, -1 on error, otherwise the frame size. */
  function ReturnCode(o: ReadOutcome): int {
    match o
    case EndOfTrace => 0
    case ReadFailed(_) => -1
    case FrameRead(frame) => |frame|
  }

  /** The error wtf_read_packet records on the trace, if any. */
  function ErrorOf(o: ReadOutcome): Option<TraceErr> {
    if o.ReadFailed? then Some(o.err) else None
  }

  /**
   * What reading one frame from the front of `src` yields, and the bytes left
   * unread. A header whose size field is smaller than the header itself is
   * rejected as a bad packet; the source has no such check (see Findings).
   */
  function ReadFrame(src: seq<uint8>): (r: (ReadOutcome, seq<uint8>))
    ensures |r.1| <= |src| && r.1 == src[|src| - |r.1|..]
    ensures r.0.FrameRead? ==>
      && src == r.0.frame + r.1
      && FrameHeaderSize <= |r.0.frame| <= PacketBufSize
      && FrameMagic(r.0.frame) == WagMagic
      && FrameSize(r.0.frame) == |r.0.frame|
  {
    if |src| == 0 then (EndOfTrace, src)
    else if |src| < FrameHeaderSize then (ReadFailed(IoError), [])
    else if FrameMagic(src) != WagMagic then (ReadFailed(BadPacket), src[FrameHeaderSize..])
    else if FrameSize(src) < FrameHeaderSize then (ReadFailed(BadPacket), src[FrameHeaderSize..])
    else if |src| < FrameSize(src) then (ReadFailed(IoError), [])
    else
      var n := FrameSize(src);
      assert src == src[..n] + src[n..];
      (FrameRead(src[..n]), src[n..])
  }

  /** End of trace exactly when the header read yields no bytes at all. */
  lemma ReadFrameEndOfTrace(src: seq<uint8>)
    ensures ReturnCode(ReadFrame(src).0) == 0 <==> |src| == 0
    ensures ReadFrame(src).0 == EndOfTrace <==> |src| == 0
  {
  }

  /** A header read yielding some but not all header bytes is an I/O error. */
  lemma ReadFrameShortHeader(src: seq<uint8>)
    requires 0 < |src| < FrameHeaderSize
    ensures ReadFrame(src) == (ReadFailed(IoError), [])
  {
  }

  /** A full header with the wrong magic is a bad packet, and no body byte is consumed. */
  lemma ReadFrameBadMagic(src: seq<uint8>)
    requires |src| >= FrameHeaderSize && FrameMagic(src) != WagMagic
    ensures ReadFrame(src) == (ReadFailed(BadPacket), src[FrameHeaderSize..])
  {
  }

  /**
   * A frame is delivered exactly when the header is complete, carries the
   * magic, is not undersized, and the whole body is present; it is then the
   * first `size` bytes of the input, and the read returns `size`.
   */
  lemma ReadFrameSuccess(src: seq<uint8>)
    ensures ReadFrame(src).0.FrameRead? <==>
      |src| >= FrameHeaderSize && FrameMagic(src) == WagMagic
      && FrameHeaderSize <= FrameSize(src) <= |src|
    ensures ReadFrame(src).0.FrameRead? ==>
      && ReadFrame(src).0.frame == src[..FrameSize(src)]
      && ReadFrame(src).1 == src[FrameSize(src)..]
      && ReturnCode(ReadFrame(src).0) == FrameSize(src) > 0
  {
  }

  /** A frame written as header and body, followed by anything, reads back as exactly that frame. */
  lemma ReadFrameRoundTrip(size: uint16, fill: seq<uint8>, body: seq<uint8>, more: seq<uint8>)
    requires |fill| == FrameHeaderSize - 4
    requires size >= FrameHeaderSize && |body| == size - FrameHeaderSize
    ensures ReadFrame(HeaderBytes(WagMagic, size, fill) + body + more)
         == (FrameRead(HeaderBytes(WagMagic, size, fill) + body), more)
  {
    var frame := HeaderBytes(WagMagic, size, fill) + body;
    var src := frame + more;
    assert src == HeaderBytes(WagMagic, size, fill) + (body + more);
    HeaderBytesDecode(WagMagic, size, fill, body + more);
    assert src[..size] == frame;
    assert src[size..] == more;
  }

  /** Reading never reports a frame size other than 0, -1 or a complete frame's length. */
  lemma ReadFrameReturnCodes(src: seq<uint8>)
    ensures var c := ReturnCode(ReadFrame(src).0);
      c == 0 || c == -1 || (FrameHeaderSize <= c <= PacketBufSize && c == FrameSize(src))
  {
  }

  /** The file behind a trace: the bytes not yet read. */
  class TraceFile {
    var rest: seq<uint8>

    constructor (contents: seq<uint8>)
      ensures rest == contents
    {
      rest := contents;
    }

    /** libtrace_io_read: copy up to `count` bytes from the front of the file into `buf` at `off`. */
    method Read(buf: array<uint8>, off: nat, count: nat) returns (n: nat)
      requires off + count <= buf.Length
      modifies this, buf
      ensures n == Min(count, |old(rest)|)
      ensures rest == old(rest)[n..]
      ensures buf[off..off + n] == old(rest)[..n]
      ensures forall k :: 0 <= k < buf.Length && !(off <= k < off + n) ==> buf[k] == old(buf[k])
    {
      n := Min(count, |rest|);
      forall k | off <= k < off + n {
        buf[k] := rest[k - off];
      }
      rest := rest[n..];
    }
  }

  datatype BufControl = CtrlPacket | CtrlExternal
  datatype PacketType = RtDataWag | OtherPacketType(code: nat)
  /** An address inside a packet buffer, or null. */
  datatype Ptr = Null | Into(base: array<uint8>, offset: nat)

  /** The packet fields that the WAG readers set. */
  class Packet {
    var bufControl: BufControl
    var buffer: array?<uint8>
    var pktType: PacketType
    var header: Ptr
    var payload: Ptr

    /** A library-owned buffer is always a full packet buffer. */
    ghost predicate Valid()
      reads this
    {
      bufControl == CtrlPacket && buffer != null ==> buffer.Length == PacketBufSize
    }

    constructor (control: BufControl, buf: array?<uint8>)
      requires control == CtrlPacket && buf != null ==> buf.Length == PacketBufSize
      ensures Valid()
      ensures bufControl == control && buffer == buf && header == Null && payload == Null
    {
      bufControl, buffer := control, buf;
      pktType := OtherPacketType(0);
      header, payload := Null, Null;
    }
  }

  /**
   * The buffer set-up both readers start with: a fresh library-owned buffer
   * when the packet's buffer is external or missing, otherwise no change.
   */
  method EnsureOwnBuffer(packet: Packet)
    requires packet.Valid()
    modifies packet
    ensures packet.Valid() && packet.buffer != null
    ensures if old(packet.bufControl) == CtrlExternal || old(packet.buffer) == null
            then packet.bufControl == CtrlPacket && fresh(packet.buffer) && packet.buffer.Length == PacketBufSize
            else packet.bufControl == old(packet.bufControl) && packet.buffer == old(packet.buffer)
    ensures packet.pktType == old(packet.pktType)
    ensures packet.header == old(packet.header) && packet.payload == old(packet.payload)
  {
    if packet.bufControl == CtrlExternal || packet.buffer == null {
      packet.bufControl := CtrlPacket;
      packet.buffer := new uint8[PacketBufSize];
    }
  }

  /**
   * The header read of wtf_read_packet: up to `sizeof(frame_t)` bytes at the
   * start of the buffer, and the magic and size fields decoded from them.
   */
  method ReadHeader(buffer: array<uint8>, file: TraceFile) returns (n: nat, magic: uint16, framesize: uint16)
    requires FrameHeaderSize <= buffer.Length
    modifies buffer, file
    ensures n == Min(FrameHeaderSize, |old(file.rest)|)
    ensures file.rest == old(file.rest)[n..]
    ensures n == FrameHeaderSize ==>
      && buffer[..FrameHeaderSize] == old(file.rest)[..FrameHeaderSize]
      && magic == FrameMagic(old(file.rest))
      && framesize == FrameSize(old(file.rest))
  {
    ghost var src := file.rest;
    n := file.Read(buffer, 0, FrameHeaderSize);
    if n == FrameHeaderSize {
      assert buffer[..FrameHeaderSize] == src[..FrameHeaderSize];
      assert buffer[0] == src[0] && buffer[1] == src[1] && buffer[2] == src[2] && buffer[3] == src[3];
    }
    magic := BigEndian16(buffer[0], buffer[1]);
    framesize := BigEndian16(buffer[2], buffer[3]);
  }

  /**
   * The body read of wtf_read_packet: `framesize - sizeof(frame_t)` bytes
   * into the buffer right behind the header; it succeeds only if they are
   * all there.
   */
  method ReadBody(buffer: array<uint8>, file: TraceFile, framesize: nat) returns (complete: bool)
    requires FrameHeaderSize <= framesize <= buffer.Length
    modifies buffer, file
    ensures complete <==> framesize - FrameHeaderSize <= |old(file.rest)|
    ensures complete ==>
      && buffer[..framesize] == old(buffer[..FrameHeaderSize]) + old(file.rest)[..framesize - FrameHeaderSize]
      && file.rest == old(file.rest)[framesize - FrameHeaderSize..]
    ensures !complete ==> file.rest == []
  {
    var size := framesize - FrameHeaderSize;
    ghost var hdrBytes := buffer[..FrameHeaderSize];
    var n := file.Read(buffer, FrameHeaderSize, size);
    complete := n == size;
    if complete {
      assert buffer[..framesize] == buffer[..FrameHeaderSize] + buffer[FrameHeaderSize..framesize];
      assert buffer[..FrameHeaderSize] == hdrBytes;
    }
  }

  /**
   * The reads of wtf_read_packet into the packet's own buffer: header, magic
   * check, size check, body, and on success the header and payload addresses.
   */
  method ReadFrameInto(packet: Packet, buffer: array<uint8>, file: TraceFile) returns (numbytes: int, err: Option<TraceErr>)
    requires packet.buffer == buffer && buffer.Length == PacketBufSize
    modifies packet`header, packet`payload, buffer, file
    ensures file.rest == ReadFrame(old(file.rest)).1
    ensures numbytes == ReturnCode(ReadFrame(old(file.rest)).0)
    ensures err == ErrorOf(ReadFrame(old(file.rest)).0)
    ensures ReadFrame(old(file.rest)).0.FrameRead? ==>
      && buffer[..numbytes] == ReadFrame(old(file.rest)).0.frame
      && packet.header == Into(buffer, 0)
      && packet.payload == Into(buffer, FramingLength)
    ensures !ReadFrame(old(file.rest)).0.FrameRead? ==>
      packet.header == old(packet.header) && packet.payload == old(packet.payload)
  {
    ghost var src := file.rest;
    ghost var outcome := ReadFrame(src);
    var n, magic, framesize := ReadHeader(buffer, file);
    if n == 0 {
      assert outcome == (EndOfTrace, src);
      return 0, None;
    }
    if n != FrameHeaderSize {
      assert outcome == (ReadFailed(IoError), []);
      return -1, Some(IoError);
    }
    if magic != WagMagic {
      assert outcome == (ReadFailed(BadPacket), src[FrameHeaderSize..]);
      return -1, Some(BadPacket);
    }
    if framesize < FrameHeaderSize {
      assert outcome == (ReadFailed(BadPacket), src[FrameHeaderSize..]);
      return -1, Some(BadPacket);
    }
    var complete := ReadBody(buffer, file, framesize);
    if !complete {
      assert outcome == (ReadFailed(IoError), []);
      return -1, Some(IoError);
    }
    assert outcome == (FrameRead(src[..framesize]), src[framesize..]);
    assert src[..framesize] == src[..FrameHeaderSize] + src[FrameHeaderSize..][..framesize - FrameHeaderSize];
    packet.header := Into(buffer, 0);
    packet.payload := Into(buffer, FramingLength);
    return framesize, None;
  }

  /**
   * wtf_read_packet: make sure the packet owns a buffer, read one frame into
   * it, and on success point header at the buffer and payload past the framing.
   */
  method WtfReadPacket(packet: Packet, file: TraceFile) returns (numbytes: int, err: Option<TraceErr>)
    requires packet.Valid()
    modifies packet, file
    modifies if packet.bufControl == CtrlPacket && packet.buffer != null then {packet.buffer} else {}
    ensures packet.Valid() && packet.buffer != null
    ensures packet.pktType == RtDataWag
    ensures if old(packet.bufControl) == CtrlExternal || old(packet.buffer) == null
            then packet.bufControl == CtrlPacket && fresh(packet.buffer)
            else packet.bufControl == old(packet.bufControl) && packet.buffer == old(packet.buffer)
    ensures file.rest == ReadFrame(old(file.rest)).1
    ensures numbytes == ReturnCode(ReadFrame(old(file.rest)).0)
    ensures err == ErrorOf(ReadFrame(old(file.rest)).0)
    ensures ReadFrame(old(file.rest)).0.FrameRead? ==>
      && packet.buffer[..numbytes] == ReadFrame(old(file.rest)).0.frame
      && packet.header == Into(packet.buffer, 0)
      && packet.payload == Into(packet.buffer, FramingLength)
    ensures !ReadFrame(old(file.rest)).0.FrameRead? ==>
      packet.header == old(packet.header) && packet.payload == old(packet.payload)
  {
    EnsureOwnBuffer(packet);
    packet.pktType := RtDataWag;
    numbytes, err := ReadFrameInto(packet, packet.buffer, file);
  }

  // ---------------------------------------------------------------------------
  // The device reader's header check (wag_read)
  // ---------------------------------------------------------------------------

  /**
   * wag_read after its retry loop has filled the whole header: a bad magic
   * is a bad packet, otherwise the frame size is what the body read is sized by.
   */
  function WagCheckHeader(hdr: seq<uint8>): (r: Option<uint16>)
    requires |hdr| == FrameHeaderSize
    ensures r == None <==> FrameMagic(hdr) != WagMagic
    ensures r != None ==> r.value == FrameSize(hdr)
  {
    if FrameMagic(hdr) != WagMagic then None else Some(FrameSize(hdr))
  }

  /** Both readers reject a header with the wrong magic as a bad packet. */
  lemma BadMagicRejectedByBothReaders(hdr: seq<uint8>, more: seq<uint8>)
    requires |hdr| == FrameHeaderSize && FrameMagic(hdr) != WagMagic
    ensures WagCheckHeader(hdr) == None
    ensures ReadFrame(hdr + more) == (ReadFailed(BadPacket), more)
  {
    assert (hdr + more)[FrameHeaderSize..] == more;
  }

  // ---------------------------------------------------------------------------
  // Accessors on a received frame
  // ---------------------------------------------------------------------------

  /**
   * The frame header fields: magic and size after ntohs; type and subtype as
   * stored, their width and position in the header assumed.
   */
  datatype FrameHeader = FrameHeader(magic: uint16, size: uint16, ftype: uint16, subtype: uint16)
  /** The receive timestamp after ntohl: seconds and fractional seconds. */
  datatype Timestamp = Timestamp(secs: uint32, subsecs: uint32)
  /** The decoded fields of `struct frame_data_rx_t` that the accessors read. */
  datatype FrameDataRx = FrameDataRx(hdr: FrameHeader, ts: Timestamp)

  /**
   * wag_get_direction: the subtype for a type-0 frame, -1 otherwise; the
   * result is an int8_t, so the subtype is truncated to its low byte.
   */
  function Direction(f: FrameDataRx): (d: int8)
    ensures f.hdr.ftype != 0 ==> d == -1
    ensures f.hdr.ftype == 0 ==> d % 0x100 == f.hdr.subtype % 0x100
  {
    if f.hdr.ftype == 0 then ToInt8(f.hdr.subtype % 0x100) else -1
  }

  /** A type-0 frame with a subtype below 128 reports that subtype unchanged. */
  lemma DirectionOfSmallSubtype(f: FrameDataRx)
    requires f.hdr.ftype == 0 && f.hdr.subtype < 0x80
    ensures Direction(f) == f.hdr.subtype
  {
  }

  /**
   * wag_get_erf_timestamp: seconds in the high 32 bits, fractional seconds in
   * the low 32 bits. The source ORs in the low word after a 32-bit shift; the
   * bits do not overlap, so that is this sum.
   */
  function ErfTimestamp(f: FrameDataRx): (t: uint64)
    ensures t / 0x1_0000_0000 == f.ts.secs
    ensures t % 0x1_0000_0000 == f.ts.subsecs
  {
    f.ts.secs * 0x1_0000_0000 + f.ts.subsecs
  }

  /** Splitting a 64-bit ERF timestamp into its two words. */
  function SplitTimestamp(t: uint64): (ts: Timestamp)
    ensures ts.secs * 0x1_0000_0000 + ts.subsecs == t
  {
    Timestamp(t / 0x1_0000_0000, t % 0x1_0000_0000)
  }

  /** Packing and splitting are inverse, in both directions. */
  lemma ErfTimestampRoundTrip(f: FrameDataRx, t: uint64)
    ensures SplitTimestamp(ErfTimestamp(f)) == f.ts
    ensures ErfTimestamp(f.(ts := SplitTimestamp(t))) == t
  {
  }

  /** ERF timestamps order frames by seconds first, then by fractional seconds. */
  lemma ErfTimestampOrder(f: FrameDataRx, g: FrameDataRx)
    ensures ErfTimestamp(f) < ErfTimestamp(g) <==>
      f.ts.secs < g.ts.secs || (f.ts.secs == g.ts.secs && f.ts.subsecs < g.ts.subsecs)
  {
  }

  /**
   * The header as the accessors see it through `packet->buffer`: magic and
   * size decoded from the buffer's first bytes. Where type and subtype sit is
   * not known here, so they are given.
   */
  function HeaderOfBuffer(buf: seq<uint8>, ftype: uint16, subtype: uint16): (h: FrameHeader)
    requires |buf| >= FrameHeaderSize
    ensures h.magic == FrameMagic(buf[..FrameHeaderSize]) && h.size == FrameSize(buf[..FrameHeaderSize])
  {
    FrameHeader(FrameMagic(buf), FrameSize(buf), ftype, subtype)
  }

  /** wag_get_capture_length: the header's size field. */
  function CaptureLength(f: FrameDataRx): (n: nat)
    ensures n <= PacketBufSize
  {
    f.hdr.size
  }

  /** wag_get_wire_length: also the header's size field. */
  function WireLength(f: FrameDataRx): (n: nat)
    ensures n <= PacketBufSize
  {
    f.hdr.size
  }

  /** wag_get_framing_length: the size of the receive framing. */
  function GetFramingLength(f: FrameDataRx): (n: nat)
    ensures n == FramingLength
  {
    FramingLength
  }

  /** No WAG frame is ever reported as truncated: capture and wire length agree. */
  lemma CaptureEqualsWire(f: FrameDataRx)
    ensures CaptureLength(f) == WireLength(f)
  {
  }

  /** For a frame just read, the capture length is the value the read returned. */
  lemma CaptureLengthIsFrameSize(src: seq<uint8>, buf: seq<uint8>, ftype: uint16, subtype: uint16, ts: Timestamp)
    requires ReadFrame(src).0.FrameRead?
    requires ReturnCode(ReadFrame(src).0) <= |buf|
    requires buf[..ReturnCode(ReadFrame(src).0)] == ReadFrame(src).0.frame
    ensures var f := FrameDataRx(HeaderOfBuffer(buf, ftype, subtype), ts);
      CaptureLength(f) == ReturnCode(ReadFrame(src).0) == WireLength(f)
  {
    var frame := ReadFrame(src).0.frame;
    assert buf[2] == frame[2] && buf[3] == frame[3];
  }

  // ---------------------------------------------------------------------------
  // Output options (wtf_init_output, wtf_config_output)
  // ---------------------------------------------------------------------------

  datatype OutputOption = OutputFileFlags | OutputCompress

  /** How the option switch answers: accepted, or rejected with an error code. */
  datatype ConfigReply = Accepted | Rejected(err: TraceErr)

  /**
   * The option switch: compression is the one option this format knows, and
   * only when built with zlib; without zlib it is unavailable; anything else
   * is unknown.
   */
  function ConfigStatus(option: OutputOption, hasZlib: bool): (r: ConfigReply)
    ensures r.Accepted? <==> option == OutputCompress && hasZlib
    ensures r.Rejected? && option == OutputCompress ==> r.err == OptionUnavailable
    ensures r.Rejected? && option != OutputCompress ==> r.err == UnknownOption
  {
    match option
    case OutputCompress => if hasZlib then Accepted else Rejected(OptionUnavailable)
    case _ => Rejected(UnknownOption)
  }

  /** The output side's stored options and its last recorded error. */
  class WagOutput {
    var level: int
    var createFile: bool
    var writeOnly: bool
    var err: Option<TraceErr>

    /** wtf_init_output: compression level 0, file opened for create and write. */
    constructor ()
      ensures level == 0 && createFile && writeOnly && err == None
    {
      level := 0;
      createFile, writeOnly := true, true;
      err := None;
    }

    /**
     * wtf_config_output: store the compression level (which must lie in
     * 0..9) and return 0, or record the error and return -1.
     */
    method ConfigOutput(option: OutputOption, value: int, hasZlib: bool) returns (r: int)
      requires option == OutputCompress && hasZlib ==> 0 <= value <= 9
      modifies this
      ensures createFile == old(createFile) && writeOnly == old(writeOnly)
      ensures ConfigStatus(option, hasZlib).Accepted? ==> r == 0 && level == value && err == old(err)
      ensures ConfigStatus(option, hasZlib).Rejected? ==>
        r == -1 && level == old(level) && err == Some(ConfigStatus(option, hasZlib).err)
    {
      match option
      case OutputCompress =>
        if hasZlib {
          level := value;
          assert 0 <= level <= 9;
          return 0;
        } else {
          err := Some(OptionUnavailable);
          return -1;
        }
      case _ =>
        err := Some(UnknownOption);
        return -1;
    }
  }

  // ---------------------------------------------------------------------------
  // The return value of wtf_write_packet
  // ---------------------------------------------------------------------------

  /**
   * wtf_write_packet as written: the second write's result is compared with
   * -1 before it is assigned, so `numbytes` holds that comparison (0 or 1).
   * The inputs are the format check and the two write calls' results.
   */
  function WritePacketAsWritten(wagFormat: bool, headerWritten: int, payloadWritten: int): (r: (int, Option<TraceErr>))
    ensures r.0 == -1 <==> !wagFormat || headerWritten == -1 || payloadWritten == -1
    ensures !wagFormat ==> r.1 == Some(NoConversion)
    ensures wagFormat && r.0 == -1 ==> r.1 == Some(IoError)
    ensures r.0 != -1 ==> r == (0, None)
  {
    if !wagFormat then (-1, Some(NoConversion))
    else if headerWritten == -1 then (-1, Some(IoError))
    else
      var numbytes := if payloadWritten == -1 then 1 else 0;
      if numbytes != 0 then (-1, Some(IoError)) else (numbytes, None)
  }

  /** As written, a successful write of a frame reports 0 bytes, whatever was written. */
  lemma WritePacketAsWrittenReturnsZero(headerWritten: nat, payloadWritten: nat)
    ensures WritePacketAsWritten(true, headerWritten, payloadWritten) == (0, None)
    ensures WritePacketAsWritten(true, FramingLength, 100).0 != 100
  {
  }

  /** wtf_write_packet as intended: on success, the number of payload bytes the second write reports. */
  function WritePacket(wagFormat: bool, headerWritten: int, payloadWritten: int): (r: (int, Option<TraceErr>))
    ensures r.0 == -1 <==> !wagFormat || headerWritten == -1 || payloadWritten == -1
    ensures !wagFormat ==> r.1 == Some(NoConversion)
    ensures r.0 != -1 ==> r == (payloadWritten, None)
  {
    if !wagFormat then (-1, Some(NoConversion))
    else if headerWritten == -1 then (-1, Some(IoError))
    else if payloadWritten == -1 then (-1, Some(IoError))
    else (payloadWritten, None)
  }

  /** The corrected write reports exactly the payload bytes, and agrees with the source on every failure. */
  lemma WritePacketReturnsBytes(wagFormat: bool, headerWritten: int, payloadWritten: int)
    ensures payloadWritten >= 0 && wagFormat && headerWritten != -1 ==>
      WritePacket(wagFormat, headerWritten, payloadWritten) == (payloadWritten, None)
    ensures WritePacket(wagFormat, headerWritten, payloadWritten).0 == -1 <==>
      WritePacketAsWritten(wagFormat, headerWritten, payloadWritten).0 == -1
  {
  }

  // ---------------------------------------------------------------------------
  // Undersized frames as written
  // ---------------------------------------------------------------------------

  /** As written, the body length `framesize - sizeof(frame_t)` is an int, converted to size_t for the read. */
  function BodyCountAsWritten(framesize: uint16): (n: uint64)
  {
    (framesize - FrameHeaderSize) % 0x1_0000_0000_0000_0000
  }

  /** The source's only guard on the body length: `size < LIBTRACE_PACKET_BUFSIZE`, on the signed int. */
  predicate BodyGuardAsWritten(framesize: uint16) {
    framesize - FrameHeaderSize < PacketBufSize
  }

  /**
   * A header whose size field is smaller than the header passes the guard,
   * and the read is then asked for far more bytes than the buffer holds.
   */
  lemma UndersizedFrameOverrunsBuffer(framesize: uint16)
    requires framesize < FrameHeaderSize
    ensures BodyGuardAsWritten(framesize)
    ensures BodyCountAsWritten(framesize) > PacketBufSize - FrameHeaderSize
  {
  }

  /** With the undersized check, a frame that is read always fits the buffer behind its header. */
  lemma ReadFrameStaysInBuffer(src: seq<uint8>)
    requires ReadFrame(src).0.FrameRead?
    ensures 0 <= FrameSize(src) - FrameHeaderSize <= PacketBufSize - FrameHeaderSize
    ensures BodyCountAsWritten(FrameSize(src)) == FrameSize(src) - FrameHeaderSize
  {
    ReadFrameSuccess(src);
  }
}
