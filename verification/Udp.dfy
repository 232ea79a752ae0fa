/** src/protocol/UDPProtocolLayer.java */
module Udp {
  import opened Bytes
  import opened ByteBuffers
  import opened Packets

  /** The keys `createHeader` looks up; a missing key is None. */
  datatype Fields = Fields(sourcePort: Option<nat>, destPort: Option<nat>, data: Option<seq<byte>>)

  /** What `handlePacket` puts into its map; the three numbers are shorts. */
  datatype Info = Info(sourcePort: int, destPort: int, length: int, data: seq<byte>)

  const HEADER_LENGTH := 8

  /** The 16-bit total length, kept in a short. */
  function TotalLength(f: Fields): int {
    Short(HEADER_LENGTH + if f.data.Some? then |f.data.value| else 0)
  }

  function Datagram(sourcePort: nat, destPort: nat, data: seq<byte>): (r: seq<byte>)
    ensures |r| == 8 + |data|
  {
    Be16(sourcePort) + Be16(destPort) + Be16(8 + |data|) + [0, 0] + data
  }

  /** The outcome of `createHeader`, error cases in the order the code meets them. */
  function Created(f: Fields): Built {
    var total := TotalLength(f);
    var data := if f.data.Some? then f.data.value else [];
    if total < 0 then Thrown
    else if f.sourcePort.None? then Null
    else if total < 2 then Thrown
    else if f.destPort.None? then Null
    else if total < 8 + |data| then Thrown
    else Made(Datagram(f.sourcePort.value, f.destPort.value, data))
  }

  method CreateHeader(f: Fields) returns (r: Built)
    ensures r == Created(f)
  {
    var total: int := HEADER_LENGTH;
    if f.data.Some? {
      total := Short(total + |f.data.value|);
    }
    if total < 0 {
      return Thrown;
    }
    var buf := new byte[total](_ => 0);
    var buffer := new ByteBuffer(buf);
    if f.sourcePort.None? {
      return Null;
    }
    if buf.Length < 2 {
      return Thrown;
    }
    buffer.PutShort(f.sourcePort.value);
    if f.destPort.None? {
      return Null;
    }
    if buf.Length < 8 {
      return Thrown;
    }
    buffer.PutShort(f.destPort.value);
    buffer.PutShort(total);
    buffer.PutShort(0);
    if f.data.Some? {
      if buf.Length < 8 + |f.data.value| {
        return Thrown;
      }
      buffer.PutAll(f.data.value);
    }
    assert Be16(0) == [0, 0];
    assert buf[..] == buf[..buffer.position];
    r := Made(buf[..]);
  }

  /** A datagram byte by byte (RFC 768); no checksum is computed. */
  lemma DatagramBytes(sourcePort: nat, destPort: nat, data: seq<byte>)
    ensures var d := Datagram(sourcePort, destPort, data);
            && WordAt(d, 0) == sourcePort % 65536 && WordAt(d, 2) == destPort % 65536
            && WordAt(d, 4) == (8 + |data|) % 65536 && WordAt(d, 6) == 0 && d[8..] == data
  {
    var d := Datagram(sourcePort, destPort, data);
    assert d[..2] == Be16(sourcePort) && d[2..4] == Be16(destPort) && d[4..6] == Be16(8 + |data|);
    assert d[0] == d[..2][0] && d[1] == d[..2][1] && d[2] == d[2..4][0] && d[3] == d[2..4][1];
    assert d[4] == d[4..6][0] && d[5] == d[4..6][1];
  }

  /** With data that fits, a datagram is made exactly when both ports are given, and nothing
      throws; with more than 32759 bytes nothing is made. */
  lemma MadeExactly(f: Fields)
    requires f.data.Some? ==> |f.data.value| < 0x8000_0000
    ensures f.data.None? || |f.data.value| <= 32759 ==>
      && !Created(f).Thrown? && (Created(f).Null? <==> f.sourcePort.None? || f.destPort.None?)
    ensures f.data.Some? && |f.data.value| > 32759 ==> !Created(f).Made?
    ensures f.data.Some? && 32760 <= |f.data.value| <= 65527 ==> Created(f).Thrown?
  {
  }

  /** Nothing is lost up to 32759 bytes of data, and everything beyond is refused. */
  lemma CreatedExactly(sourcePort: nat, destPort: nat, data: seq<byte>)
    requires |data| < 0x8000_0000
    ensures Created(Fields(Some(sourcePort), Some(destPort), Some(data)))
         == if |data| <= 32759 then Made(Datagram(sourcePort, destPort, data)) else Thrown
  {
  }

  /** The outcome of `handlePacket`: None when the header is too short for its fields. */
  function Handled(p: Packet): Option<Info> {
    if |p.header| < 6 then None
    else Some(Info(Short(WordAt(p.header, 0)), Short(WordAt(p.header, 2)), Short(WordAt(p.header, 4)), p.data))
  }

  method HandlePacket(p: Packet) returns (r: Option<Info>)
    ensures r == Handled(p)
  {
    if |p.header| < 2 {
      return None;
    }
    var source := Short(WordAt(p.header, 0));
    if |p.header| < 4 {
      return None;
    }
    var dest := Short(WordAt(p.header, 2));
    if |p.header| < 6 {
      return None;
    }
    var length := Short(WordAt(p.header, 4));
    r := Some(Info(source, dest, length, p.data));
  }

  /** A header is refused exactly when it is too short for ports and length. */
  lemma ParsedExactly(p: Packet)
    ensures if |p.header| < 6 then Handled(p) == None
            else
              && Handled(p).Some? && Handled(p).value.data == p.data
              && Handled(p).value.sourcePort % 65536 == WordAt(p.header, 0)
              && Handled(p).value.destPort % 65536 == WordAt(p.header, 2)
              && Handled(p).value.length % 65536 == WordAt(p.header, 4)
  {
  }

  /** Parsing a datagram whose payload sits in packet.data returns what was put in. */
  lemma RoundTrip(sourcePort: nat, destPort: nat, data: seq<byte>)
    requires sourcePort < 65536 && destPort < 65536 && |data| <= 32759
    ensures var made := Created(Fields(Some(sourcePort), Some(destPort), Some(data)));
            made.Made? && Handled(Packet(made.bytes, made.bytes[8..]))
                       == Some(Info(Short(sourcePort), Short(destPort), 8 + |data|, data))
  {
    var d := Datagram(sourcePort, destPort, data);
    CreatedExactly(sourcePort, destPort, data);
    assert d[..2] == Be16(sourcePort) && d[2..4] == Be16(destPort) && d[4..6] == Be16(8 + |data|);
    assert WordAt(d, 0) == sourcePort && WordAt(d, 2) == destPort && WordAt(d, 4) == 8 + |data|;
    assert d[8..] == data;
  }
}
