/** src/protocol/ARPProtocolLayer.java */
module Arp {
  import opened Bytes
  import Jpcap

  const REQUEST := 1
  const REPLY := 2
  const BROADCAST: MacAddress := [255, 255, 255, 255, 255, 255]

  /** An ARP message for Ethernet and IPv4 (RFC 826). */
  function Message(opcode: int, senderMac: MacAddress, senderIp: IpAddress,
                   targetMac: MacAddress, targetIp: IpAddress): (r: seq<byte>)
    ensures |r| == 28
  {
    Be16(1) + Be16(0x0800) + [6, 4] + Be16(opcode) + senderMac + senderIp + targetMac + targetIp
  }

  /** A message byte by byte (RFC 826). */
  lemma MessageBytes(opcode: int, senderMac: MacAddress, senderIp: IpAddress,
                     targetMac: MacAddress, targetIp: IpAddress)
    ensures var m := Message(opcode, senderMac, senderIp, targetMac, targetIp);
            && WordAt(m, 0) == 1 && WordAt(m, 2) == 0x0800 && m[4] == 6 && m[5] == 4
            && WordAt(m, 6) == opcode % 65536
            && m[8..14] == senderMac && m[14..18] == senderIp && m[18..24] == targetMac && m[24..28] == targetIp
  {
    var m := Message(opcode, senderMac, senderIp, targetMac, targetIp);
    assert m[..2] == Be16(1) && m[2..4] == Be16(0x0800) && m[6..8] == Be16(opcode);
    assert m[0] == m[..2][0] && m[1] == m[..2][1] && m[2] == m[2..4][0] && m[3] == m[2..4][1];
    assert m[6] == m[6..8][0] && m[7] == m[6..8][1];
  }

  /** `makeARPRequestMsg`: an array filled behind a running pointer. */
  method MakeRequest(ip: IpAddress, deviceMac: MacAddress, deviceIp: IpAddress) returns (r: seq<byte>)
    ensures r == Message(REQUEST, deviceMac, deviceIp, BROADCAST, ip)
    ensures |r| == 28 && WordAt(r, 0) == 1 && WordAt(r, 2) == 0x0800 && r[4] == 6 && r[5] == 4 && WordAt(r, 6) == 1
    ensures r[8..14] == deviceMac && r[14..18] == deviceIp && r[18..24] == seq(6, _ => 255) && r[24..28] == ip
  {
    MessageBytes(REQUEST, deviceMac, deviceIp, BROADCAST, ip);
    hide Be16;
    var data := new byte[28](_ => 0);
    var pointer := 0;
    ghost var fixed := [0, 1] + Be16(0x0800) + [6, 4] + Be16(REQUEST);
    data[pointer] := 0;
    pointer := pointer + 1;
    data[pointer] := 1;
    pointer := pointer + 1;
    assert data[..2] == [0, 1];
    pointer := Append(data, pointer, Be16(0x0800));
    data[pointer], data[pointer + 1] := 6, 4;
    pointer := pointer + 2;
    assert data[..6] == [0, 1] + Be16(0x0800) + [6, 4];
    pointer := Append(data, pointer, Be16(REQUEST));
    pointer := Append(data, pointer, deviceMac);
    pointer := Append(data, pointer, deviceIp);
    pointer := Append(data, pointer, BROADCAST);
    pointer := Append(data, pointer, ip);
    assert data[..] == data[..28];
    BeOne();
    r := data[..];
  }

  lemma BeOne()
    ensures Be16(1) == [0, 1]
  {
  }

  /** `for (byte b : bytes) data[pointer++] = b;` */
  method Append(data: array<byte>, pointer: nat, bytes: seq<byte>) returns (next: nat)
    requires pointer + |bytes| <= data.Length
    modifies data
    ensures next == pointer + |bytes|
    ensures data[..next] == old(data[..pointer]) + bytes
  {
    next := pointer;
    for i := 0 to |bytes|
      invariant next == pointer + i
      invariant data[..next] == old(data[..pointer]) + bytes[..i]
    {
      data[next] := bytes[i];
      next := next + 1;
    }
  }

  /** The outcome of `analyseARPMsg` on packet.header: an exception when it is too short,
      nothing for the map, or the sender's pair. */
  datatype Outcome = Crash | NoEntry | Accepted(ip: IpAddress, mac: MacAddress)

  /** A reply to this device: opcode 2 and our address as the target. */
  predicate IsReplyToUs(header: seq<byte>, device: IpAddress)
    requires |header| >= 42
  {
    WordAt(header, 20) == 2 && header[38..42] == device
  }

  function Analysed(header: seq<byte>, device: IpAddress): Outcome {
    if |header| < 22 then Crash
    else if Short(WordAt(header, 20)) != REPLY then NoEntry
    else Matched(header, device, 0)
  }

  /** The comparison from index i on, which may run off the end of the header. */
  function Matched(header: seq<byte>, device: IpAddress, i: nat): Outcome
    requires i <= 4 && (i > 0 ==> |header| >= 38 + i)
    decreases 4 - i
  {
    if i == 4 then Accepted(header[28..32], header[22..28])
    else if |header| <= 38 + i then Crash
    else if device[i] != header[38 + i] then NoEntry
    else Matched(header, device, i + 1)
  }

  method Analyse(header: seq<byte>, device: IpAddress) returns (r: Outcome)
    ensures r == Analysed(header, device)
  {
    if |header| < 22 {
      return Crash;
    }
    if Short(WordAt(header, 20)) != REPLY {
      return NoEntry;
    }
    for i := 0 to 4
      invariant i > 0 ==> |header| >= 38 + i
      invariant Matched(header, device, i) == Analysed(header, device)
    {
      if |header| <= 38 + i {
        return Crash;
      }
      if device[i] != header[38 + i] {
        return NoEntry;
      }
    }
    r := Accepted(header[28..32], header[22..28]);
  }

  /** On a full header an entry is made exactly for a reply to this device. */
  lemma AnalysedExactly(header: seq<byte>, device: IpAddress)
    requires |header| >= 42
    ensures Analysed(header, device)
         == if IsReplyToUs(header, device) then Accepted(header[28..32], header[22..28]) else NoEntry
  {
    assert Short(WordAt(header, 20)) == REPLY <==> WordAt(header, 20) == REPLY;
    if WordAt(header, 20) == REPLY {
      MatchedExactly(header, device, 0);
      assert header[38..42] == device <==> forall j :: 0 <= j < 4 ==> device[j] == header[38 + j];
    }
  }

  /** On any header, an exception is thrown exactly when a byte that is looked at is missing. */
  lemma CrashesExactly(header: seq<byte>, device: IpAddress)
    ensures Analysed(header, device).Crash?
       <==> || |header| < 22
            || (&& |header| < 42 && WordAt(header, 20) == 2
                && forall j :: 38 <= j < |header| ==> header[j] == device[j - 38])
  {
    if |header| >= 22 {
      assert Short(WordAt(header, 20)) == REPLY <==> WordAt(header, 20) == 2;
      MatchedCrash(header, device, 0);
    }
  }

  lemma {:induction false} MatchedCrash(header: seq<byte>, device: IpAddress, i: nat)
    requires i <= 4 && (i > 0 ==> |header| >= 38 + i)
    ensures Matched(header, device, i).Crash?
       <==> |header| < 42 && forall j :: 38 + i <= j < |header| ==> header[j] == device[j - 38]
    decreases 4 - i
  {
    if i < 4 && |header| > 38 + i {
      MatchedCrash(header, device, i + 1);
    }
  }

  lemma {:induction false} MatchedExactly(header: seq<byte>, device: IpAddress, i: nat)
    requires |header| >= 42 && i <= 4
    ensures Matched(header, device, i)
         == if forall j :: i <= j < 4 ==> device[j] == header[38 + j]
            then Accepted(header[28..32], header[22..28]) else NoEntry
    decreases 4 - i
  {
    if i < 4 {
      MatchedExactly(header, device, i + 1);
    }
  }

  /** The host that a request asks for answers by swapping the addresses (RFC 826). */
  function AnswerTo(request: seq<byte>, own: MacAddress): seq<byte>
    requires |request| == 28
  {
    Message(REPLY, own, request[24..28], request[8..14], request[14..18])
  }

  /** The answer to our own request gives us the asked-for address with the answerer's MAC. */
  lemma RequestAnswered(ip: IpAddress, deviceMac: MacAddress, deviceIp: IpAddress, own: MacAddress)
    ensures Analysed(Jpcap.EthernetHeader(deviceMac, own, 0x0806)
                     + AnswerTo(Message(REQUEST, deviceMac, deviceIp, BROADCAST, ip), own), deviceIp)
         == Accepted(ip, own)
  {
    hide Be16, Analysed;
    var request := Message(REQUEST, deviceMac, deviceIp, BROADCAST, ip);
    assert request[24..28] == ip && request[8..14] == deviceMac && request[14..18] == deviceIp;
    ReplyAccepted(own, ip, deviceMac, deviceIp, deviceIp, Jpcap.EthernetHeader(deviceMac, own, 0x0806));
  }

  /** A reply is accepted exactly when its target address is ours. */
  lemma ReplyAccepted(senderMac: MacAddress, senderIp: IpAddress, targetMac: MacAddress, targetIp: IpAddress,
                      device: IpAddress, ethernet: seq<byte>)
    requires |ethernet| == 14
    ensures Analysed(ethernet + Message(REPLY, senderMac, senderIp, targetMac, targetIp), device)
         == if targetIp == device then Accepted(senderIp, senderMac) else NoEntry
  {
    var m := Message(REPLY, senderMac, senderIp, targetMac, targetIp);
    var header := ethernet + m;
    assert m[6..8] == Be16(REPLY);
    assert header[20] == m[6..8][0] && header[21] == m[6..8][1];
    assert header[22..28] == senderMac && header[28..32] == senderIp && header[38..42] == targetIp;
    AnalysedExactly(header, device);
  }
}
