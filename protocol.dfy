/** The TFTP object of the client. Its one piece of state the model needs is `asciiMode`,
    which starts false and is switched on by a request in mode "ascii" or "netascii" and
    never switched off; it decides whether `send` and `receive` transcode. The reference to
    the caller's timeout variable only selects which transport call is made, and the
    transport is not part of this model, so it is not a field here. */
module Protocol {
  import opened Octets
  import opened Netascii
  import opened Packets

  class Tftp {
    var asciiMode: bool

    constructor ()
      ensures !asciiMode
    {
      asciiMode := false;
    }

    /** `makeRRQ`, with the header's default arguments: mode "binary", block size 512 and
        no timeout offer. */
    method MakeRrq(filename: Bytes, mode: Bytes := Ascii("binary"), blockSize: int := 512, timeoutOffer: int := 0)
      returns (packet: Bytes)
      modifies this
      ensures packet == ReadRequest(filename, mode, blockSize, timeoutOffer)
      ensures asciiMode == (old(asciiMode) || IsAsciiMode(mode))
    {
      packet := [NUL, 1] + filename + [NUL] + mode;
      if IsAsciiMode(mode) {
        asciiMode := true;
      }
      packet := packet + OptionFields(blockSize, 0, timeoutOffer);
    }

    /** `makeWRQ`: as `makeRRQ` with opcode 2 and the given transfer size. */
    method MakeWrq(filename: Bytes, mode: Bytes := Ascii("binary"), blockSize: int := 512,
                   transferSize: int := 0, timeoutOffer: int := 0)
      returns (packet: Bytes)
      modifies this
      ensures packet == WriteRequest(filename, mode, blockSize, transferSize, timeoutOffer)
      ensures asciiMode == (old(asciiMode) || IsAsciiMode(mode))
    {
      packet := [NUL, 2] + filename + [NUL] + mode;
      if IsAsciiMode(mode) {
        asciiMode := true;
      }
      packet := packet + OptionFields(blockSize, transferSize, timeoutOffer);
    }

    /** The datagram `send` hands to the transport: the DATA framing of the first `length`
        bytes of `data`, expanded to netascii first when the object is in ascii mode. */
    method Send(blockNumber: int, data: array<byte>, length: int) returns (packet: Bytes)
      requires 0 <= length <= data.Length
      ensures packet == DataPacket(blockNumber, if asciiMode then Encoded(data[..length]) else data[..length])
    {
      var bn := BlockNumberToStr(blockNumber);
      packet := bn[..2];
      if asciiMode {
        var outData := new byte[length * 2];
        var outDataLength := OctetToNetascii(data, outData, length);
        packet := packet + outData[..outDataLength];
      } else {
        packet := packet + data[..length];
      }
    }

    /** `receive`: the transport writes the first `maxLength` bytes of the datagram into
        `buffer` and reports how many it wrote; in ascii mode the bytes after the four-byte
        header are then scanned in place with a fresh carriage-return flag and the scan's
        count is returned, in binary mode the received length is. */
    method Receive(buffer: array<byte>, maxLength: int, datagram: Bytes)
      returns (resultLength: int, networkRecvBytes: int)
      requires 0 <= maxLength <= buffer.Length
      modifies buffer
      ensures networkRecvBytes == Min(|datagram|, maxLength)
      ensures var received := datagram[..networkRecvBytes];
              var payload := if networkRecvBytes < 4 then [] else received[4..];
              if asciiMode then
                resultLength == DecodedCount(payload, false)
                && buffer[..] == received[..Min(4, networkRecvBytes)] + Decoded(payload, false)
                                 + old(buffer[networkRecvBytes..])
              else
                resultLength == networkRecvBytes
                && buffer[..] == received + old(buffer[networkRecvBytes..])
    {
      networkRecvBytes := Deliver(buffer, maxLength, datagram);
      if asciiMode {
        var netasciiState := false;
        if networkRecvBytes - 4 > 0 {
          ghost var b := buffer[..];
          resultLength, netasciiState := NetasciiToOctet(buffer, 4, networkRecvBytes - 4, netasciiState);
          assert b[4..networkRecvBytes] == datagram[..networkRecvBytes][4..];
          assert b[..4] == datagram[..networkRecvBytes][..4];
        } else {
          // the scan of a non-positive length does nothing and returns 0
          resultLength := 0;
        }
      } else {
        resultLength := networkRecvBytes;
      }
    }
  }

  /** The transport's part of a receive: the datagram, cut to `maxLength`, lands at the front
      of the buffer and the rest of the buffer keeps what it held. */
  method Deliver(buffer: array<byte>, maxLength: int, datagram: Bytes) returns (n: int)
    requires 0 <= maxLength <= buffer.Length
    modifies buffer
    ensures n == Min(|datagram|, maxLength)
    ensures buffer[..] == Overwrite(old(buffer[..]), datagram, n)
  {
    n := Min(|datagram|, maxLength);
    var i := 0;
    while i < n
      invariant 0 <= i <= n
      invariant forall k | 0 <= k < buffer.Length :: buffer[k] == if k < i then datagram[k] else old(buffer[k])
    {
      buffer[i] := datagram[i];
      i := i + 1;
    }
    OverwriteParts(old(buffer[..]), datagram, n);
  }

  /** A client sequence: whatever the requests, once ascii mode is on it stays on, and the
      packets are what the builders say. */
  method RequestsKeepAsciiMode(filename: Bytes) returns (first: Bytes, second: Bytes, ascii: bool)
    ensures first == ReadRequest(filename, Ascii("netascii"), 512, 0)
    ensures second == ReadRequest(filename, Ascii("octet"), 1024, 5)
    ensures ascii
  {
    var t := new Tftp();
    first := t.MakeRrq(filename, Ascii("netascii"));
    second := t.MakeRrq(filename, Ascii("octet"), 1024, 5);
    ascii := t.asciiMode;
  }
}
