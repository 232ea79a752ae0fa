/** The byte and length arithmetic of jpcap's sender and captor for Ethernet and IPv4:
    api/jpcap/Jpcap-master/src/main/c/JpcapSender.c and JpcapCaptor.c. */
module Jpcap {
  import opened Bytes
  import opened Packets
  import opened Ip

  const ETHERNET_HEADER := 14
  const ETHERTYPE_IP := 0x0800
  const MAX_PACKET_SIZE := 1600
  const MIN_FRAME := 60
  const UNKNOWN_PROTO := 0xffff

  // ---------- Sending ----------

  function EthernetHeader(dst: MacAddress, src: MacAddress, frameType: int): (r: seq<byte>)
    ensures |r| == 14
  {
    dst + src + Be16(frameType)
  }

  /** The frame that goes out: header, data, and zeros up to 60 bytes. */
  function Frame(dst: MacAddress, src: MacAddress, frameType: int, data: seq<byte>): (r: seq<byte>)
    ensures |r| == Max(14 + |data|, MIN_FRAME)
  {
    EthernetHeader(dst, src, frameType) + data + Zeros(Max(MIN_FRAME - 14 - |data|, 0))
  }

  /** A frame byte by byte: destination, source, type, data, and zeros behind it. */
  lemma FrameBytes(dst: MacAddress, src: MacAddress, frameType: int, data: seq<byte>)
    ensures var f := Frame(dst, src, frameType, data);
            && f[..6] == dst && f[6..12] == src && WordAt(f, 12) == frameType % 65536
            && f[14..14 + |data|] == data && forall i :: 14 + |data| <= i < |f| ==> f[i] == 0
  {
    var e, f := EthernetHeader(dst, src, frameType), Frame(dst, src, frameType, data);
    assert f[..14] == e && e[12..14] == Be16(frameType);
    assert f[..6] == e[..6] == dst && f[6..12] == e[6..12] == src;
    assert f[12] == e[12..14][0] && f[13] == e[12..14][1];
  }

  /** `nativeSendPacket` with the raw-copy branch of `set_packet`. The C buffer has 1600
      bytes and is not checked, so its caller must keep the frame within them. */
  method NativeSendPacket(dst: MacAddress, src: MacAddress, frameType: int, data: seq<byte>)
    returns (sent: seq<byte>)
    requires 14 + |data| <= MAX_PACKET_SIZE
    ensures sent == Frame(dst, src, frameType, data)
    ensures |sent| == Max(14 + |data|, 60)
    ensures sent[..6] == dst && sent[6..12] == src && WordAt(sent, 12) == frameType % 65536
    ensures sent[14..14 + |data|] == data && forall i :: 14 + |data| <= i < |sent| ==> sent[i] == 0
  {
    FrameBytes(dst, src, frameType, data);
    var buf := new byte[MAX_PACKET_SIZE](_ => 0);
    var head := EthernetHeader(dst, src, frameType);
    forall i | 0 <= i < 14 {
      buf[i] := head[i];
    }
    forall i | 0 <= i < |data| {
      buf[14 + i] := data[i];
    }
    var length := 14 + |data|;
    assert buf[..length] == head + data;
    if length < MIN_FRAME {
      forall i | length <= i < MIN_FRAME + 1 {
        buf[i] := 0;
      }
      assert buf[..length] == head + data;
      assert buf[..MIN_FRAME] == buf[..length] + Zeros(MIN_FRAME - length);
      length := MIN_FRAME;
    }
    sent := buf[..length];
  }

  // ---------- Capturing ----------

  /** Either the two arrays handed to Java, or a read that leaves the captured bytes. */
  datatype Captured = Split(packet: Packet) | OutsideCapture

  /** The bytes of the IP packet that the capture holds. */
  function Available(frame: seq<byte>): int {
    |frame| - ETHERNET_HEADER
  }

  /** The bytes it should hold according to its own length field, cut to what is there. */
  function Present(frame: seq<byte>): int
    requires |frame| >= 34
  {
    Min(WordAt(frame, 16), Available(frame))
  }

  /** The transport protocol whose header is expected after the IP header, if any. */
  function Transport(frame: seq<byte>): Option<byte>
    requires |frame| >= 34
  {
    if Available(frame) > HeaderLength(frame) && FragmentOffset(frame) == 0 then Some(frame[23]) else None
  }

  function MinTransport(protocol: byte): nat {
    if protocol == 6 then 20 else if protocol == 17 || protocol == 1 then 8 else 0
  }

  /** The capture ends inside the fixed part of the transport header. */
  predicate Truncated(frame: seq<byte>)
    requires |frame| >= 34
  {
    Transport(frame).Some? && Available(frame) - HeaderLength(frame) < MinTransport(Transport(frame).value)
  }

  /** A truncated transport header in a capture shorter than its packet. */
  predicate Unclamped(frame: seq<byte>)
    requires |frame| >= 34
  {
    Truncated(frame) && WordAt(frame, 16) > Available(frame)
  }

  /** The transport header length that the frame itself states. */
  function TransportLength(frame: seq<byte>): nat
    requires |frame| >= 34
  {
    if Transport(frame).None? || Truncated(frame) then 0
    else if frame[23] == 6 then frame[26 + HeaderLength(frame)] as int / 16 * 4
    else MinTransport(frame[23])
  }

  /** Where the packet's data begins: behind the transport header, cut to what is present. */
  function DataStart(frame: seq<byte>): (r: int)
    requires |frame| >= 34
    ensures r <= 14 + Present(frame)
  {
    14 + Min(HeaderLength(frame) + TransportLength(frame), Present(frame))
  }

  /** The prefix of the capture that belongs to the IP packet, cut in two. */
  function Expected(frame: seq<byte>): Packet
    requires |frame| >= 34
  {
    Packet(frame[..DataStart(frame)], frame[DataStart(frame)..14 + Present(frame)])
  }

  /** `(bpf_u_int32) n` */
  function Unsigned32(n: int): nat {
    n % 0x1_0000_0000
  }

  /** The first half of `get_packet`: what tproto ends up as. */
  function Classified(frame: seq<byte>): nat
    requires |frame| >= 34
  {
    if Truncated(frame) then UNKNOWN_PROTO
    else if Transport(frame).Some? then Transport(frame).value as int
    else ETHERTYPE_IP
  }

  method TransportProtocol(frame: array<byte>, ipHeader: nat) returns (tproto: nat)
    requires 34 <= frame.Length <= 32767
    requires ipHeader == HeaderLength(frame[..])
    ensures tproto == Classified(frame[..])
  {
    var clen := Short(frame.Length);
    clen := Short(clen - ETHERNET_HEADER);
    clen := Short(clen - ipHeader);
    tproto := ETHERTYPE_IP;
    if clen > 0 && frame[20] as int % 32 * 256 + frame[21] as int == 0 {
      tproto := frame[23] as int;
    }
    if (tproto == 6 && clen < 20) || (tproto == 17 && clen < 8) || (tproto == 1 && clen < 8) {
      tproto := Unsigned16(-1);
    }
  }

  /** `analyze_tcp`, UDPHDRLEN or ICMPHDRLEN, by tproto. */
  method TransportHeader(frame: array<byte>, data: nat, tproto: nat) returns (hlen: nat)
    requires 34 <= frame.Length && data == 14 + HeaderLength(frame[..]) && tproto == Classified(frame[..])
    ensures hlen == TransportLength(frame[..]) && hlen <= 60
    ensures tproto == UNKNOWN_PROTO ==> hlen == 0
  {
    if tproto == 6 {
      hlen := frame[data + 12] as int / 16 * 4;
    } else if tproto == 17 || tproto == 1 {
      hlen := 8;
    } else {
      hlen := 0;
    }
  }

  /** The clamp of clen to the capture; the comparison is unsigned, so a total length above
      32767, which is negative as a short, is clamped too. */
  method ClampedLength(captured: nat, ipLength: nat, tproto: nat) returns (clen: int)
    requires 34 <= captured <= 32767 && ipLength < 65536
    ensures clen == if tproto == UNKNOWN_PROTO then Short(ipLength) else Min(ipLength, captured - ETHERNET_HEADER)
  {
    clen := Short(ipLength);
    if tproto != UNKNOWN_PROTO && Unsigned32(clen) > captured - ETHERNET_HEADER {
      clen := Short(captured - ETHERNET_HEADER);
    }
  }

  /** The second half of `get_packet`: where data ends up pointing and how much is left. */
  method SplitPoint(frame: array<byte>, ipHeader: nat, ipLength: nat, tproto: nat) returns (data: int, clen: int)
    requires 34 <= frame.Length <= 32767 && ipHeader <= 60 && ipLength < 65536
    requires ipHeader == HeaderLength(frame[..]) && ipLength == WordAt(frame[..], 16)
    requires tproto == Classified(frame[..])
    ensures clen >= 0
    ensures !Unclamped(frame[..]) ==> 0 <= data == DataStart(frame[..]) && data + clen == 14 + Present(frame[..])
    ensures Unclamped(frame[..]) && clen > 0 ==> data + clen > frame.Length
    ensures Unclamped(frame[..]) && clen == 0 ==> !(14 <= Unsigned16(data) <= frame.Length)
  {
    assert tproto == UNKNOWN_PROTO <==> Truncated(frame[..]);
    hide TransportLength, HeaderLength, WordAt, Classified, Truncated;
    data := ETHERNET_HEADER;
    clen := ClampedLength(frame.Length, ipLength, tproto);
    var hlen: int := ipHeader;
    data := data + hlen;
    clen := Short(clen - hlen);
    hlen := TransportHeader(frame, data, tproto);
    if hlen > clen {
      hlen := clen;
    }
    clen := Short(clen - hlen);
    data := data + hlen;
  }

  /** The arrays made from data and clen, as long as both lie inside the capture. */
  function HandedOver(frame: seq<byte>, data: int, clen: nat): Captured {
    if Unsigned16(data) > |frame| || (clen > 0 && !(0 <= data <= data + clen <= |frame|)) then OutsideCapture
    else Split(Packet(frame[..Unsigned16(data)], if clen > 0 then frame[data..data + clen] else []))
  }

  lemma HandedExactly(frame: seq<byte>, data: int, clen: nat)
    requires 34 <= |frame| <= 32767
    requires !Unclamped(frame) ==> 0 <= data == DataStart(frame) && data + clen == 14 + Present(frame)
    requires Unclamped(frame) && clen > 0 ==> data + clen > |frame|
    requires Unclamped(frame) && clen == 0 ==> !(14 <= Unsigned16(data) <= |frame|)
    ensures HandedOver(frame, data, clen) == Split(Expected(frame)) <==> !Unclamped(frame)
  {
    var start, end := DataStart(frame), 14 + Present(frame);
    assert 14 <= start <= end <= |frame|;
    hide DataStart, Present, Unclamped;
    if Unclamped(frame) {
      assert |Expected(frame).header| == start;
    } else {
      assert Unsigned16(data) == data;
    }
  }

  /** The condition on raw bytes: a first fragment of TCP, UDP or ICMP whose capture ends
      before byte 20 or 8 of the transport header, and before the packet does. */
  lemma UnclampedExactly(frame: seq<byte>)
    requires |frame| >= 34
    ensures var captured := |frame| - 14 - frame[14] as int % 16 * 4;
            Unclamped(frame) <==>
              && captured > 0 && frame[20] as int % 32 == 0 && frame[21] == 0
              && ((frame[23] == 6 && captured < 20) || ((frame[23] == 17 || frame[23] == 1) && captured < 8))
              && WordAt(frame, 16) > |frame| - 14
  {
  }

  /** The layers of a frame, laid end to end: Ethernet header, IP header, transport header,
      its data, and padding. */
  datatype Layers = Layers(ethernet: seq<byte>, ip: seq<byte>, transport: seq<byte>, data: seq<byte>,
                           padding: seq<byte>)

  function Joined(l: Layers): seq<byte> {
    l.ethernet + l.ip + l.transport + l.data + l.padding
  }

  /** The lengths that the headers state: RFC 791 for IP; RFC 793, 768 and 792 for what a
      first fragment carries. Other packets have no transport header to split off. */
  predicate Stacked(l: Layers) {
    && |l.ethernet| == 14 && |l.ip| >= 20
    && |l.ip| == l.ip[0] as int % 16 * 4
    && WordAt(l.ip, 2) == |l.ip| + |l.transport| + |l.data|
    && (if WordAt(l.ip, 6) % 8192 != 0 || |l.transport| + |l.data| + |l.padding| == 0 then l.transport == []
        else if l.ip[9] == 6 then |l.transport| >= 20 && |l.transport| == l.transport[12] as int / 16 * 4
        else if l.ip[9] == 17 || l.ip[9] == 1 then |l.transport| == 8
        else l.transport == [])
  }

  lemma JoinedFields(l: Layers)
    requires |l.ethernet| == 14 && |l.ip| >= 20
    ensures var f := Joined(l);
            && |f| >= 34 && f[14] == l.ip[0] && f[23] == l.ip[9]
            && WordAt(f, 16) == WordAt(l.ip, 2)
            && f[20] == l.ip[6] && f[21] == l.ip[7]
            && (|l.transport| > 12 ==> f[26 + |l.ip|] == l.transport[12])
  {
    var f := Joined(l);
    assert f == l.ethernet + (l.ip + (l.transport + (l.data + l.padding)));
    assert f[14..] == l.ip + (l.transport + (l.data + l.padding));
    assert forall i :: 0 <= i < |l.ip| ==> f[14 + i] == f[14..][i] == l.ip[i];
    if |l.transport| > 12 {
      assert f[14 + |l.ip|..] == l.transport + (l.data + l.padding);
      assert f[26 + |l.ip|] == f[14 + |l.ip|..][12];
    }
  }

  lemma JoinedSlices(l: Layers)
    ensures var f, n := Joined(l), |l.ethernet| + |l.ip| + |l.transport|;
            f[..n] == l.ethernet + l.ip + l.transport && f[n..n + |l.data|] == l.data
  {
    assert Joined(l) == (l.ethernet + l.ip + l.transport) + (l.data + l.padding);
  }

  lemma StartOfData(l: Layers)
    requires Stacked(l)
    ensures var f := Joined(l);
            && |f| >= 34 && !Unclamped(f)
            && DataStart(f) == |l.ethernet| + |l.ip| + |l.transport|
            && 14 + Present(f) == DataStart(f) + |l.data|
  {
    JoinedFields(l);
    var f := Joined(l);
    assert |f| == 14 + |l.ip| + |l.transport| + |l.data| + |l.padding|;
    assert FragmentOffset(f) == WordAt(l.ip, 6) % 8192;
    hide Joined, FragmentOffset, WordAt;
  }

  /** Splitting follows the layers: what is stacked end to end, whatever is captured behind
      it, is cut between the transport header and its data, and the padding is dropped. */
  lemma SplitsLayers(l: Layers)
    requires Stacked(l)
    ensures |Joined(l)| >= 34 && !Unclamped(Joined(l))
    ensures Expected(Joined(l)) == Packet(l.ethernet + l.ip + l.transport, l.data)
  {
    StartOfData(l);
    JoinedSlices(l);
    hide Joined, Stacked, Unclamped, DataStart, Present;
  }

  /** A capture of 38 bytes that gets it wrong: four bytes of the UDP header of a packet of
      100. The data would start behind the header and reach 48 bytes past the capture. */
  lemma TruncatedNotSplit(frame: seq<byte>)
    requires frame == Zeros(12) + [8, 0, 0x45, 0, 0, 100, 0, 0, 0, 0, 64, 17, 0, 0] + Zeros(12)
    ensures |frame| == 38 && WordAt(frame, 12) == ETHERTYPE_IP
    ensures Unclamped(frame) && HandedOver(frame, 34, 80) == OutsideCapture
  {
  }

  /** `get_packet` for an Ethernet capture of an IPv4 packet, with the C types written out:
      clen and hlen are shorts, tproto is a u_short, and the clamp compares clen with an
      unsigned number. It cuts the captured bytes of the packet in two without loss for
      every frame, except that a truncated transport header, which is recorded as 0xffff,
      also switches off the clamp to the capture length. */
  method GetPacket(frame: array<byte>) returns (r: Captured)
    requires 34 <= frame.Length <= 32767
    requires WordAt(frame[..], 12) == ETHERTYPE_IP
    ensures r == Split(Expected(frame[..]))
       <==> !Unclamped(frame[..])
  {
    var ipHeader := frame[14] as int % 16 * 4;
    var tproto := TransportProtocol(frame, ipHeader);
    var data, clen := SplitPoint(frame, ipHeader, WordAt(frame[..], 16), tproto);
    hide Unclamped, DataStart, Present, WordAt, Expected;
    HandedExactly(frame[..], data, clen);
    var hlen := Unsigned16(data);
    if hlen > frame.Length || (clen > 0 && (data < 0 || data + clen > frame.Length)) {
      return OutsideCapture;
    }
    r := Split(Packet(frame[..hlen], if clen > 0 then frame[data..data + clen] else []));
  }
}
