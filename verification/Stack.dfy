/** The layers put together: `ProtocolManager.handleIPPacket`, and what survives the way
    through the builders, jpcap and the parsers. */
module Stack {
  import opened Bytes
  import opened Packets
  import Checksum
  import Icmp
  import Ip
  import Jpcap
  import Udp

  /** What an application is handed. Only the echo handler of the ICMP chain is modelled. */
  datatype Delivery =
    | Dropped
    | Failed
    | ToUdp(ip: Ip.Info, udp: Udp.Info)
    | ToIcmp(ip: Ip.Info, echo: Icmp.Outcome)

  /** The packet after its header has been overwritten with the IP payload, by protocol. */
  function Dispatched(info: Ip.Info, data: seq<byte>): Delivery {
    var packet := Packet(info.payload, data);
    if info.protocol == 1 then ToIcmp(info, Icmp.Handled(packet))
    else if info.protocol == 17 then
      var udp := Udp.Handled(packet);
      if udp.None? then Failed else ToUdp(info, udp.value)
    else Dropped
  }

  function Delivered(p: Packet, device: IpAddress): Delivery {
    var outcome := Ip.Handled(p.header + p.data, device);
    if outcome.NotForUs? then Dropped
    else if outcome.Failed? then Failed
    else Dispatched(outcome.info, p.data)
  }

  method HandleIpPacket(p: Packet, device: IpAddress) returns (r: Delivery)
    ensures r == Delivered(p, device)
  {
    var outcome := Ip.HandlePacket(p, device);
    if outcome.NotForUs? {
      return Dropped;
    }
    if outcome.Failed? {
      return Failed;
    }
    var info := outcome.info;
    var packet := Packet(info.payload, p.data);
    if info.protocol == 1 {
      var echo := Icmp.HandlePacket(packet);
      r := ToIcmp(info, echo);
    } else if info.protocol == 17 {
      var udp := Udp.HandlePacket(packet);
      if udp.None? {
        return Failed;
      }
      r := ToUdp(info, udp.value);
    } else {
      r := Dropped;
    }
  }

  /** What never reaches a parser: packets for other hosts, without a word, and of those for
      us everything but ICMP and UDP. */
  lemma DroppedExactly(p: Packet, device: IpAddress)
    ensures var b := p.header + p.data;
            && (Delivered(p, device).Dropped? <==>
                && |b| >= 34 && (b[30..34] != device || (Ip.Handled(b, device).Accepted? && b[23] != 1 && b[23] != 17)))
            && (Delivered(p, device).ToIcmp? <==> Ip.Handled(b, device).Accepted? && b[23] == 1)
            && (Delivered(p, device).ToUdp? <==>
                Ip.Handled(b, device).Accepted? && b[23] == 17 && |Ip.Handled(b, device).info.payload| >= 6)
  {
    Ip.HandledExactly(p.header + p.data, device);
  }

  // ---------- Cross-layer consistency ----------

  /** A frame as the UDP and ICMP parsers want it: addressed to us, with room for a
      transport header of eight bytes, and with a length that fits a short. */
  predicate WellAddressed(frame: seq<byte>, device: IpAddress)
    requires |frame| >= 34
  {
    && Ip.HeaderLength(frame) >= 20
    && Ip.HeaderLength(frame) + 8 <= WordAt(frame, 16) <= 32767
    && (frame[23] == 1 || frame[23] == 17)
    && frame[30..34] == device
  }

  /** The prefix that get_packet hands over, joined again. */
  lemma ExpectedJoined(frame: seq<byte>)
    requires |frame| >= 34
    ensures Jpcap.Expected(frame).header + Jpcap.Expected(frame).data == frame[..14 + Jpcap.Present(frame)]
  {
  }

  /** The IP layer recovers its payload from a full capture. */
  lemma PayloadRecovered(frame: seq<byte>, device: IpAddress)
    requires |frame| >= 34 && WellAddressed(frame, device)
    requires WordAt(frame, 16) <= Jpcap.Available(frame)
    ensures var b := frame[..14 + Jpcap.Present(frame)];
            Ip.Handled(b, device) == Ip.Accepted(Ip.Info(frame[26..30], device, frame[23],
              frame[14 + Ip.HeaderLength(frame)..14 + WordAt(frame, 16)]))
  {
    var b := frame[..14 + Jpcap.Present(frame)];
    assert b[26..30] == frame[26..30] && b[30..34] == frame[30..34];
    assert WordAt(b, 16) == WordAt(frame, 16);
    assert Short(WordAt(frame, 16)) == WordAt(frame, 16);
    var start := 14 + Ip.HeaderLength(frame);
    assert b[start..14 + WordAt(frame, 16)] == frame[start..14 + WordAt(frame, 16)];
  }

  /** After the header has been replaced by the IP payload, the data that jpcap cut off
      is that payload without its first eight bytes exactly when the packet is a first
      fragment; that is what the UDP and echo parsers rely on. */
  lemma DataIsPayloadTail(frame: seq<byte>, device: IpAddress)
    requires |frame| >= 34 && WellAddressed(frame, device)
    requires WordAt(frame, 16) <= Jpcap.Available(frame)
    ensures !Jpcap.Unclamped(frame)
    ensures var p := Jpcap.Expected(frame);
            var outcome := Ip.Handled(p.header + p.data, device);
            outcome.Accepted? && |outcome.info.payload| >= 8 &&
            (p.data == outcome.info.payload[8..] <==> Ip.FragmentOffset(frame) == 0)
  {
    ExpectedJoined(frame);
    PayloadRecovered(frame, device);
    var p := Jpcap.Expected(frame);
    var start := 14 + Ip.HeaderLength(frame);
    var payload := frame[start..14 + WordAt(frame, 16)];
    if Ip.FragmentOffset(frame) == 0 {
      assert Jpcap.TransportLength(frame) == 8;
      assert p.data == payload[8..];
    } else {
      assert |p.data| == |payload|;
    }
  }

  /** Of the packets for us whose length field covers a transport header, exactly those
      that were captured whole and whose length is positive as a short get past the IP layer. */
  lemma AcceptedExactly(frame: seq<byte>, device: IpAddress)
    requires |frame| >= 34 && frame[30..34] == device
    requires Ip.HeaderLength(frame) >= 20 && Ip.HeaderLength(frame) + 8 <= WordAt(frame, 16)
    ensures Ip.Handled(Jpcap.Expected(frame).header + Jpcap.Expected(frame).data, device).Accepted?
       <==> WordAt(frame, 16) <= 32767 && WordAt(frame, 16) <= Jpcap.Available(frame)
  {
    ExpectedJoined(frame);
    var n := 14 + Jpcap.Present(frame);
    assert 34 <= n <= |frame|;
    var b := frame[..n];
    assert b[30..34] == frame[30..34];
    assert WordAt(b, 16) == WordAt(frame, 16);
    if WordAt(frame, 16) > 32767 {
      assert Short(WordAt(frame, 16)) < 0;
    }
  }

  // ---------- End to end ----------

  /** The fields the applications fill in: no flags and no fragment offset. */
  function IpFields(length: int, protocol: byte, source: IpAddress, destination: IpAddress,
                    identification: int, timeToLive: byte): Ip.Fields
  {
    Ip.Fields(Some(length), Some(protocol), Some(source), Some(destination), None, None,
              Some(identification), None, None, Some(timeToLive))
  }

  /** The fields of a header, read where the parsers read them. */
  lemma HeaderFields(f: Ip.Fields, device: IpAddress)
    requires f.dataLength.Some? && f.protocol.Some? && f.destination.Some? && f.source.Some?
    requires f.flag.None? && f.fragmentOffset.None?
    requires 0 <= f.dataLength.value <= 32747
    ensures var h := Ip.Header(f, device);
            && h[0] == 0x45 && WordAt(h, 2) == f.dataLength.value + 20
            && h[6] == 0 && h[7] == 0 && h[9] == f.protocol.value
            && h[12..16] == f.source.value && h[16..20] == f.destination.value
  {
    Ip.HeaderBytes(f, device);
    Ip.HeaderWords(f, device);
    assert Ip.FlagWord(f) == 0;
    hide Ip.Header, Ip.FlagWord;
    var h := Ip.Header(f, device);
    assert h[6] as int * 256 + h[7] as int == 0;
  }

  /** The same fields inside the frame on the wire; padding included, nothing overlaps. */
  lemma FrameFields(h: seq<byte>, payload: seq<byte>, dst: MacAddress, src: MacAddress)
    requires |h| == 20
    ensures var frame := Jpcap.Frame(dst, src, Jpcap.ETHERTYPE_IP, h + payload);
            && |frame| >= 60 && |frame| >= 34 + |payload|
            && WordAt(frame, 12) == Jpcap.ETHERTYPE_IP
            && frame[14..34] == h
            && frame[34..34 + |payload|] == payload
  {
    Jpcap.FrameBytes(dst, src, Jpcap.ETHERTYPE_IP, h + payload);
    var frame := Jpcap.Frame(dst, src, Jpcap.ETHERTYPE_IP, h + payload);
    hide Jpcap.Frame;
    var body := frame[14..34 + |payload|];
    assert body == h + payload;
    assert frame[14..34] == body[..20] && frame[34..34 + |payload|] == body[20..];
  }

  /** Everything the parsers look at, for a payload framed by this stack. */
  lemma Framed(f: Ip.Fields, device: IpAddress, payload: seq<byte>, dst: MacAddress, src: MacAddress)
    requires f.dataLength == Some(|payload|) && f.protocol.Some? && f.destination == Some(device) && f.source.Some?
    requires f.flag.None? && f.fragmentOffset.None?
    requires f.protocol.value == 1 || f.protocol.value == 17
    requires 8 <= |payload| && 20 + |payload| <= 1586
    ensures var frame := Jpcap.Frame(dst, src, Jpcap.ETHERTYPE_IP, Ip.Header(f, device) + payload);
            && 34 <= |frame| <= 1600
            && WordAt(frame, 12) == Jpcap.ETHERTYPE_IP
            && !Jpcap.Unclamped(frame)
            && Delivered(Jpcap.Expected(frame), device)
               == Dispatched(Ip.Info(f.source.value, device, f.protocol.value, payload), payload[8..])
  {
    var h := Ip.Header(f, device);
    var frame := Jpcap.Frame(dst, src, Jpcap.ETHERTYPE_IP, h + payload);
    HeaderFields(f, device);
    FrameFields(h, payload, dst, src);
    HeaderInFrame(h, frame);
    hide Jpcap.Frame, Ip.Header, Dispatched, Jpcap.Unclamped, Jpcap.Expected, Delivered, WordAt;
    DeliveredFrame(frame, device, f.source.value, f.protocol.value, payload);
  }

  /** A full capture of a first fragment for us, by its fields. */
  lemma DeliveredFrame(frame: seq<byte>, device: IpAddress, source: IpAddress, protocol: byte, payload: seq<byte>)
    requires |frame| >= 34 + |payload| && 8 <= |payload| <= 32747 && frame[34..34 + |payload|] == payload
    requires frame[14] == 0x45 && frame[20] == 0 && frame[21] == 0 && frame[23] == protocol
    requires WordAt(frame, 16) == 20 + |payload|
    requires frame[26..30] == source && frame[30..34] == device && (protocol == 1 || protocol == 17)
    ensures !Jpcap.Unclamped(frame)
    ensures Delivered(Jpcap.Expected(frame), device)
         == Dispatched(Ip.Info(source, device, protocol, payload), payload[8..])
  {
    assert Ip.HeaderLength(frame) == 20 && Ip.FragmentOffset(frame) == 0;
    hide Dispatched, Jpcap.Unclamped, Jpcap.Expected, Ip.HeaderLength, Ip.FragmentOffset;
    ExpectedJoined(frame);
    PayloadRecovered(frame, device);
    DataIsPayloadTail(frame, device);
  }

  /** The fields of a 20-byte header, read from the frame it stands in. */
  lemma HeaderInFrame(h: seq<byte>, frame: seq<byte>)
    requires |h| == 20 && |frame| >= 34 && frame[14..34] == h
    ensures frame[14] == h[0] && frame[20] == h[6] && frame[21] == h[7] && frame[23] == h[9]
    ensures WordAt(frame, 16) == WordAt(h, 2)
    ensures frame[26..30] == h[12..16] && frame[30..34] == h[16..20]
  {
    assert forall i :: 0 <= i < 20 ==> frame[14 + i] == frame[14..34][i];
  }

  /** What the card of a host takes off the wire: frames for its own address, and broadcasts.
      The stack does not open it in promiscuous mode. */
  predicate Hears(own: MacAddress, frame: seq<byte>)
    requires |frame| >= 6
  {
    frame[..6] == own || frame[..6] == [255, 255, 255, 255, 255, 255]
  }

  /** UDP end to end: built, framed and padded by the sender, captured, split, joined and
      parsed by the receiver, a payload comes back with its ports and its source, on the host
      it was sent to and on no other. */
  method UdpOverTheWire(sourcePort: nat, destPort: nat, payload: seq<byte>, source: IpAddress, device: IpAddress,
                        identification: int, timeToLive: byte, dst: MacAddress, src: MacAddress, own: MacAddress)
    returns (r: Option<Delivery>)
    requires sourcePort < 65536 && destPort < 65536
    requires 28 + |payload| <= 1586
    ensures r.Some? <==> own == dst || dst == [255, 255, 255, 255, 255, 255]
    ensures r.Some? ==>
      r.value == ToUdp(Ip.Info(source, device, 17, Udp.Datagram(sourcePort, destPort, payload)),
                       Udp.Info(Short(sourcePort), Short(destPort), 8 + |payload|, payload))
  {
    var udp := Udp.CreateHeader(Udp.Fields(Some(sourcePort), Some(destPort), Some(payload)));
    Udp.CreatedExactly(sourcePort, destPort, payload);
    var fields := IpFields(|udp.bytes|, 17, source, device, identification, timeToLive);
    var ip := Ip.CreateHeader(fields, device);
    Framed(fields, device, udp.bytes, dst, src);
    Udp.RoundTrip(sourcePort, destPort, payload);
    hide Ip.Header, Udp.Datagram;
    r := OverTheWire(ip.bytes + udp.bytes, device, dst, src, own);
  }

  /** The same for an ICMP echo reply. */
  method EchoReplyOverTheWire(identifier: int, sequence: int, payload: seq<byte>, source: IpAddress, device: IpAddress,
                              identification: int, timeToLive: byte, dst: MacAddress, src: MacAddress, own: MacAddress)
    returns (r: Option<Delivery>)
    requires 28 + |payload| <= 1586
    ensures r.Some? <==> own == dst || dst == [255, 255, 255, 255, 255, 255]
    ensures r.Some? ==> r.value.ToIcmp? && r.value.ip.source == source && r.value.ip.protocol == 1
    ensures r.Some? ==>
      r.value.echo == Icmp.Reply(Icmp.Info(Short(identifier), Short(sequence),
                                           if payload == [] then None else Some(payload)))
  {
    var wanted := Icmp.Fields(Icmp.EchoReply, Some(identifier), Some(sequence), Some(payload), 0);
    var icmp := Icmp.CreateHeader(wanted);
    var fields := IpFields(|icmp.bytes|, 1, source, device, identification, timeToLive);
    var ip := Ip.CreateHeader(fields, device);
    Framed(fields, device, icmp.bytes, dst, src);
    Icmp.RoundTrip(wanted);
    hide Ip.Header, Icmp.Message;
    r := OverTheWire(ip.bytes + icmp.bytes, device, dst, src, own);
  }

  /** One host's sender, the wire, and another host's card, captor and stack. */
  method OverTheWire(data: seq<byte>, device: IpAddress, dst: MacAddress, src: MacAddress, own: MacAddress)
    returns (r: Option<Delivery>)
    requires 20 <= |data| && 14 + |data| <= 1600
    requires WordAt(Jpcap.Frame(dst, src, Jpcap.ETHERTYPE_IP, data), 12) == Jpcap.ETHERTYPE_IP
    requires !Jpcap.Unclamped(Jpcap.Frame(dst, src, Jpcap.ETHERTYPE_IP, data))
    ensures r.Some? <==> own == dst || dst == [255, 255, 255, 255, 255, 255]
    ensures r.Some? ==> r.value == Delivered(Jpcap.Expected(Jpcap.Frame(dst, src, Jpcap.ETHERTYPE_IP, data)), device)
  {
    var sent := Jpcap.NativeSendPacket(dst, src, Jpcap.ETHERTYPE_IP, data);
    if !Hears(own, sent) {
      return None;
    }
    var wire := new byte[|sent|](i requires 0 <= i < |sent| => sent[i]);
    assert wire[..] == sent;
    var captured := Jpcap.GetPacket(wire);
    hide Jpcap.Frame, Jpcap.Expected, Jpcap.Unclamped, Delivered;
    var delivery := HandleIpPacket(captured.packet, device);
    r := Some(delivery);
  }
}
