/** The netlink message header of netlink/types.go: twelve bytes read
    little-endian in front of the message payload. */
module NetlinkHeader {
  import opened Wrappers
  import opened Bytes

  const HeaderSize: nat := 12

  datatype Header = Header(length: u32, msgType: u16, flags: u16, pid: u32)

  datatype Message = Message(header: Header, data: Bytes)

  /** binary.Read's failures: io.EOF when not one byte could be read,
      io.ErrUnexpectedEOF when the header is cut short. */
  datatype ReadError = EOF | UnexpectedEOF

  /** DecodeMessge: the header from b[0..12], the rest as the payload. */
  function DecodeMessage(b: Bytes): (r: Result<Message, ReadError>)
    ensures r.Err? <==> |b| < HeaderSize
    ensures r == Err(EOF) <==> |b| == 0
    ensures r.Ok? ==> r.value.data == b[HeaderSize..]
  {
    if |b| == 0 then Err(EOF)
    else if |b| < HeaderSize then Err(UnexpectedEOF)
    else
      var h := Header(ReadLE32(b[0..4]), ReadLE16(b[4..6]), ReadLE16(b[6..8]), ReadLE32(b[8..12]));
      Ok(Message(h, b[HeaderSize..]))
  }

  /** The header as binary.Write would lay it out. */
  function EncodeHeader(h: Header): (r: Bytes)
    ensures |r| == HeaderSize
  {
    LE32(h.length) + LE16(h.msgType) + LE16(h.flags) + LE32(h.pid)
  }

  /** Decoding an encoded header followed by any payload gives both back. */
  lemma DecodeEncoded(h: Header, d: Bytes)
    ensures DecodeMessage(EncodeHeader(h) + d) == Ok(Message(h, d))
  {
    var b := EncodeHeader(h) + d;
    assert b[0..4] == LE32(h.length) && b[4..6] == LE16(h.msgType);
    assert b[6..8] == LE16(h.flags) && b[8..12] == LE32(h.pid);
    assert b[HeaderSize..] == d;
  }

  /** Every input that decodes is the encoding of its header and payload. */
  lemma EncodeDecoded(b: Bytes)
    requires |b| >= HeaderSize
    ensures var m := DecodeMessage(b).value;
            EncodeHeader(m.header) + m.data == b
  {
    LE32OfRead(b[0..4]);
    LE16OfRead(b[4..6]);
    LE16OfRead(b[6..8]);
    LE32OfRead(b[8..12]);
    assert b == b[0..4] + b[4..6] + b[6..8] + b[8..12] + b[HeaderSize..];
  }
}
