/** src/protocol/IPProtocolLayer.java, for headers without options. */
module Ip {
  import opened Bytes
  import opened ByteBuffers
  import opened Checksum
  import opened Packets

  /** The keys `createHeader` looks up; addresses are kept as their four bytes. */
  datatype Fields = Fields(dataLength: Option<int>, protocol: Option<byte>,
                           source: Option<IpAddress>, destination: Option<IpAddress>,
                           dscp: Option<bv8>, ecn: Option<bv8>, identification: Option<int>,
                           flag: Option<bv16>, fragmentOffset: Option<bv16>, timeToLive: Option<byte>)

  /** What `handlePacket` puts into its map. */
  datatype Info = Info(source: IpAddress, dest: IpAddress, protocol: byte, payload: seq<byte>)

  datatype Outcome = NotForUs | Failed | Accepted(info: Info)

  function GetOr<T>(o: Option<T>, default: T): T {
    if o.Some? then o.value else default
  }

  /** `(byte) (dscp << 2 | ecn)` */
  function ServiceBits(dscp: bv8, ecn: bv8): byte {
    ((dscp << 2) | ecn) as int
  }

  /** `(short) (flag << 13)`, or-ed with the fragment offset. */
  function FlagBits(flag: bv16, offset: bv16): (r: nat)
    ensures r < 65536
  {
    ((flag << 13) | offset) as int
  }

  function ServiceByte(f: Fields): byte {
    ServiceBits(GetOr<bv8>(f.dscp, 0), GetOr<bv8>(f.ecn, 0))
  }

  function FlagWord(f: Fields): nat {
    FlagBits(GetOr<bv16>(f.flag, 0), GetOr<bv16>(f.fragmentOffset, 0))
  }

  /** The twenty bytes with the checksum field still zero. */
  function Unchecked(f: Fields, device: IpAddress): (r: seq<byte>)
    requires f.dataLength.Some? && f.protocol.Some? && f.destination.Some?
    ensures |r| == 20
  {
    [0x45, ServiceByte(f)] + Be16(f.dataLength.value + 20) + Be16(GetOr(f.identification, 0)) + Be16(FlagWord(f))
    + [GetOr(f.timeToLive, 64), f.protocol.value, 0, 0] + GetOr(f.source, device) + f.destination.value
  }

  function Header(f: Fields, device: IpAddress): (r: seq<byte>)
    requires f.dataLength.Some? && f.protocol.Some? && f.destination.Some?
    ensures |r| == 20
  {
    Patch(Unchecked(f, device), 10, FoldOnce(WordSum(Unchecked(f, device))))
  }

  function Created(f: Fields, device: IpAddress): Built {
    if f.dataLength.None? || f.protocol.None? || f.destination.None? then Null
    else Made(Header(f, device))
  }

  method CreateHeader(f: Fields, device: IpAddress) returns (r: Built)
    ensures r == Created(f, device)
  {
    hide ServiceByte, FlagWord, Be16, WordSum, FoldOnce;
    var buf := new byte[20](_ => 0);
    var buffer := new ByteBuffer(buf);
    buffer.Put(0x45);
    buffer.Put(ServiceByte(f));
    assert buf[..2] == [0x45, ServiceByte(f)];
    if f.dataLength.None? {
      return Null;
    }
    var totalLength := Short(f.dataLength.value + 20);
    Be16Short(f.dataLength.value + 20);
    PutThreeShorts(buffer, totalLength, GetOr(f.identification, 0), FlagWord(f));
    if f.protocol.None? {
      return Null;
    }
    PutLifeAndProtocol(buffer, GetOr(f.timeToLive, 64), f.protocol.value);
    buffer.PutAll(GetOr(f.source, device));
    if f.destination.None? {
      return Null;
    }
    buffer.PutAll(f.destination.value);
    assert buf[..] == buf[..20];
    assert buf[..] == Unchecked(f, device);
    hide Unchecked;
    FillChecksum(buffer);
    r := Made(buf[..]);
  }

  /** The time to live is put before the protocol is looked up; the checksum is zero for now. */
  method PutLifeAndProtocol(buffer: ByteBuffer, timeToLive: byte, protocol: byte)
    requires buffer.Valid() && buffer.position + 4 <= buffer.store.Length
    modifies buffer`position, buffer.store
    ensures buffer.Valid() && buffer.position == old(buffer.position) + 4
    ensures buffer.store[..buffer.position] == old(buffer.store[..buffer.position]) + [timeToLive, protocol, 0, 0]
  {
    assert Be16(0) == [0, 0];
    hide Be16;
    buffer.Put(timeToLive);
    buffer.Put(protocol);
    buffer.PutShort(0);
  }

  method FillChecksum(buffer: ByteBuffer)
    requires buffer.Valid() && buffer.store.Length == 20
    modifies buffer.store
    ensures var u := old(buffer.store[..]);
            buffer.store[..] == Patch(u, 10, FoldOnce(WordSum(u)))
  {
    hide WordSum, FoldOnce, Be16;
    var buf := buffer.store;
    assert buf[..Max(20, 0)] == buf[..];
    var checkSum := ChecksumJava(buf, buf.Length);
    buffer.PutShortAt(10, checkSum);
  }

  method PutThreeShorts(buffer: ByteBuffer, a: int, b: int, c: int)
    requires buffer.Valid() && buffer.position + 6 <= buffer.store.Length
    modifies buffer`position, buffer.store
    ensures buffer.Valid() && buffer.position == old(buffer.position) + 6
    ensures buffer.store[..buffer.position] == old(buffer.store[..buffer.position]) + Be16(a) + Be16(b) + Be16(c)
  {
    buffer.PutShort(a);
    buffer.PutShort(b);
    buffer.PutShort(c);
  }

  lemma Be16Short(n: int)
    ensures Be16(Short(n)) == Be16(n)
  {
    var m := Short(n);
    assert (m - n) % 65536 == 0;
    var k := (m - n) / 65536;
    assert m == n + 65536 * k;
    assert m / 256 == n / 256 + 256 * k;
  }

  /** A created header byte by byte (section 3.1 of RFC 791), except for the parts that have
      results of their own: service byte, flag word and checksum. */
  lemma HeaderBytes(f: Fields, device: IpAddress)
    requires f.dataLength.Some? && f.protocol.Some? && f.destination.Some?
    ensures var h := Header(f, device);
            && h[0] == 0x45 && WordAt(h, 2) == (f.dataLength.value + 20) % 65536
            && WordAt(h, 4) == (if f.identification.Some? then f.identification.value else 0) % 65536
            && h[8] == (if f.timeToLive.Some? then f.timeToLive.value else 64)
            && h[9] == f.protocol.value
            && h[12..16] == (if f.source.Some? then f.source.value else device)
            && h[16..20] == f.destination.value
  {
    hide FlagBits, ServiceBits;
    var h, u := Header(f, device), Unchecked(f, device);
    PatchKeeps(u, 10, FoldOnce(WordSum(u)));
    assert u[2..4] == Be16(f.dataLength.value + 20) && u[4..6] == Be16(GetOr(f.identification, 0));
    assert u[12..16] == GetOr(f.source, device) && u[16..20] == f.destination.value;
    hide Header, Unchecked, Be16;
    KeptBytes(h, u);
  }

  lemma KeptBytes(h: seq<byte>, u: seq<byte>)
    requires |h| == |u| == 20 && h[..10] == u[..10] && h[12..] == u[12..]
    ensures forall i :: 0 <= i < 10 ==> h[i] == u[i]
    ensures WordAt(h, 2) == WordAt(u[2..4], 0) && WordAt(h, 4) == WordAt(u[4..6], 0)
    ensures h[12..16] == u[12..16] && h[16..20] == u[16..20]
  {
    assert forall i :: 0 <= i < 10 ==> h[i] == h[..10][i];
    assert h[12..16] == h[12..][..4] && h[16..20] == h[12..][4..];
    assert u[12..16] == u[12..][..4] && u[16..20] == u[12..][4..];
  }

  /** Null is returned exactly when a key that must be there is missing; nothing throws. */
  lemma MadeExactly(f: Fields, device: IpAddress)
    ensures !Created(f, device).Thrown?
    ensures Created(f, device).Null? <==> f.dataLength.None? || f.protocol.None? || f.destination.None?
  {
  }

  /** A receiver accepts the header exactly when the single fold did not carry. */
  lemma HeaderValid(f: Fields, device: IpAddress)
    requires f.dataLength.Some? && f.protocol.Some? && f.destination.Some?
    ensures OnesSum(Header(f, device)) == 65535 <==> Fold(WordSum(Unchecked(f, device))) <= 65535
  {
    var u := Unchecked(f, device);
    assert u[10] == 0 && u[11] == 0;
    JavaChecksumValid(u, 10);
  }

  lemma TwoBytes(a: byte, b: byte, rest: seq<byte>)
    ensures WordSum([a, b] + rest) == a as int * 256 + b as int + WordSum(rest)
  {
    var s := [a, b] + rest;
    assert Rest(s) == rest;
  }

  /** A header this stack builds whose checksum comes out one too large: a datagram without
      data from 192.168.1.100 to 192.168.1.1 with identification 0xf71d. */
  lemma HeaderCarries(device: IpAddress)
    requires device == [192, 168, 1, 100]
    ensures var f := Fields(Some(8), Some(17), None, Some([192, 168, 1, 1]), None, None,
                            Some(0xf71d), None, None, None);
            OnesSum(Header(f, device)) != 65535
  {
    var f := Fields(Some(8), Some(17), None, Some([192, 168, 1, 1]), None, None, Some(0xf71d), None, None, None);
    var u := Unchecked(f, device);
    var s8: seq<byte> := [192, 168, 1, 1];
    var s7: seq<byte> := [192, 168, 1, 100] + s8;
    var s5: seq<byte> := [64, 17] + ([0, 0] + s7);
    assert u == [0x45, 0] + ([0, 28] + ([0xf7, 0x1d] + ([0, 0] + s5)));
    assert s7 == [192, 168] + ([1, 100] + ([192, 168] + ([1, 1] + [])));
    assert WordSum([]) == 0;
    hide WordSum, Unchecked, Header;
    TwoBytes(0x45, 0, [0, 28] + ([0xf7, 0x1d] + ([0, 0] + s5)));
    TwoBytes(0, 28, [0xf7, 0x1d] + ([0, 0] + s5));
    TwoBytes(0xf7, 0x1d, [0, 0] + s5);
    TwoBytes(0, 0, s5);
    TwoBytes(64, 17, [0, 0] + s7);
    TwoBytes(0, 0, s7);
    TwoBytes(192, 168, [1, 100] + ([192, 168] + ([1, 1] + [])));
    TwoBytes(1, 100, [192, 168] + ([1, 1] + []));
    TwoBytes(192, 168, [1, 1] + []);
    TwoBytes(1, 1, []);
    assert WordSum(u) == 0x2ffff;
    HeaderValid(f, device);
  }

  lemma ServiceBitsSum(d: bv8, e: bv8)
    requires d < 64 && e < 4
    ensures ServiceBits(d, e) == d as int * 4 + e as int && d as int < 64 && e as int < 4
  {
  }

  lemma ServiceBitsFit(d: bv8, e: bv8)
    ensures d as int < 64 ==> d < 64
    ensures e as int < 4 ==> e < 4
  {
  }

  /** Code point and congestion bits can be read back exactly when they fit their bits. */
  lemma ServiceBitsExactly(d: bv8, e: bv8)
    ensures ServiceBits(d, e) / 4 == d as int && ServiceBits(d, e) % 4 == e as int <==> d < 64 && e < 4
  {
    hide ServiceBits;
    if d < 64 && e < 4 {
      ServiceBitsSum(d, e);
    }
    ServiceBitsFit(d, e);
  }

  lemma FlagBitsSum(x: bv16, y: bv16)
    requires x < 8 && y < 8192
    ensures FlagBits(x, y) == x as int * 8192 + y as int && x as int < 8 && y as int < 8192
  {
  }

  lemma FlagBitsFit(x: bv16, y: bv16)
    ensures x as int < 8 ==> x < 8
    ensures y as int < 8192 ==> y < 8192
  {
  }

  /** So can flags and fragment offset. */
  lemma FlagBitsExactly(x: bv16, y: bv16)
    ensures FlagBits(x, y) / 8192 == x as int && FlagBits(x, y) % 8192 == y as int <==> x < 8 && y < 8192
  {
    hide FlagBits;
    if x < 8 && y < 8192 {
      FlagBitsSum(x, y);
    }
    FlagBitsFit(x, y);
  }

  lemma TopBits(x: bv16, y: bv16) returns (top: bv16)
    ensures FlagBits(x, y) == FlagBits(top, y) && top < 8
  {
    top := x & 7;
    assert (x << 13) == (top << 13);
  }

  /** Whatever the flags are, the offset stays what it is exactly when it fits. */
  lemma OffsetBitsExactly(x: bv16, y: bv16)
    ensures FlagBits(x, y) % 8192 == y as int <==> y < 8192
  {
    hide FlagBits;
    var top := TopBits(x, y);
    FlagBitsFit(top, y);
    if y < 8192 {
      FlagBitsSum(top, y);
    }
  }

  /** The service byte and the flag word of a created header hold what they were given exactly
      when it fits. */
  lemma HeaderBits(f: Fields, device: IpAddress)
    requires f.dataLength.Some? && f.protocol.Some? && f.destination.Some?
    ensures var h, d, e := Header(f, device), GetOr<bv8>(f.dscp, 0), GetOr<bv8>(f.ecn, 0);
            h[1] as int / 4 == d as int && h[1] as int % 4 == e as int <==> d < 64 && e < 4
    ensures var h, x, y := Header(f, device), GetOr<bv16>(f.flag, 0), GetOr<bv16>(f.fragmentOffset, 0);
            WordAt(h, 6) / 8192 == x as int && WordAt(h, 6) % 8192 == y as int <==> x < 8 && y < 8192
  {
    hide FlagBits, ServiceBits;
    HeaderWords(f, device);
    ServiceBitsExactly(GetOr<bv8>(f.dscp, 0), GetOr<bv8>(f.ecn, 0));
    FlagBitsExactly(GetOr<bv16>(f.flag, 0), GetOr<bv16>(f.fragmentOffset, 0));
    hide Header, WordAt;
  }

  lemma HeaderWords(f: Fields, device: IpAddress)
    requires f.dataLength.Some? && f.protocol.Some? && f.destination.Some?
    ensures Header(f, device)[1] == ServiceByte(f) && WordAt(Header(f, device), 6) == FlagWord(f)
  {
    hide FlagBits, ServiceBits;
    var h, u := Header(f, device), Unchecked(f, device);
    assert h[1] == u[1];
    assert u[6..8] == Be16(FlagWord(f));
    assert h[6] == u[6] == u[6..8][0] && h[7] == u[7] == u[6..8][1];
  }

  /** The fields of an IPv4 header that starts at byte 14 of a frame. */
  function HeaderLength(b: seq<byte>): int
    requires |b| >= 34
  {
    b[14] as int % 16 * 4
  }

  function FragmentOffset(b: seq<byte>): nat
    requires |b| >= 34
  {
    b[20] as int % 32 * 256 + b[21] as int
  }

  /** The fragment offset that the captor reads out of a frame around a created header is the
      one it was created with exactly when that fits, whatever the flags. */
  lemma FragmentOffsetSent(f: Fields, device: IpAddress, frame: seq<byte>)
    requires f.dataLength.Some? && f.protocol.Some? && f.destination.Some?
    requires |frame| >= 34 && frame[14..34] == Header(f, device)
    ensures var y := GetOr<bv16>(f.fragmentOffset, 0);
            FragmentOffset(frame) == y as int <==> y < 8192
  {
    hide FlagBits, Header;
    var h := Header(f, device);
    HeaderWords(f, device);
    OffsetBitsExactly(GetOr<bv16>(f.flag, 0), GetOr<bv16>(f.fragmentOffset, 0));
    OffsetInFrame(frame, h);
    hide FragmentOffset, WordAt;
  }

  lemma OffsetInFrame(frame: seq<byte>, h: seq<byte>)
    requires |frame| >= 34 && |h| == 20 && frame[14..34] == h
    ensures FragmentOffset(frame) == WordAt(h, 6) % 8192
  {
    assert frame[20] == h[6] && frame[21] == h[7];
    assert h[6] as int == h[6] as int / 32 * 32 + h[6] as int % 32;
  }

  /** The bytes that the two length fields delimit, if there are that many. */
  function Payload(b: seq<byte>): Option<seq<byte>>
    requires |b| >= 34
  {
    var start := HeaderLength(b) + 14;
    var total := Short(WordAt(b, 16));
    if total < start - 14 || start + (total - (start - 14)) > |b| then None
    else Some(b[start..total + 14])
  }

  /** The outcome of `handlePacket` on the joined bytes of a packet. */
  function Handled(b: seq<byte>, device: IpAddress): Outcome {
    if |b| < 34 then Failed
    else if b[30..34] != device then NotForUs
    else
      var payload := Payload(b);
      if payload.None? then Failed else Accepted(Info(b[26..30], b[30..34], b[23], payload.value))
  }

  /** The three outcomes on any bytes: a packet for another host is passed over silently,
      whatever its lengths say, and one for us fails exactly when its lengths do not fit. */
  lemma HandledExactly(b: seq<byte>, device: IpAddress)
    ensures Handled(b, device).NotForUs? <==> |b| >= 34 && b[30..34] != device
    ensures Handled(b, device).Accepted? <==>
      && |b| >= 34 && b[30..34] == device
      && WordAt(b, 16) <= 32767 && b[14] as int % 16 * 4 <= WordAt(b, 16)
      && 14 + WordAt(b, 16) <= |b|
    ensures Handled(b, device).Accepted? ==>
      Handled(b, device).info == Info(b[26..30], device, b[23], b[14 + b[14] as int % 16 * 4..14 + WordAt(b, 16)])
  {
  }

  method HandlePacket(p: Packet, device: IpAddress) returns (r: Outcome)
    ensures r == Handled(p.header + p.data, device)
  {
    var ipData := new byte[|p.header| + |p.data|](_ => 0);
    var buffer := new ByteBuffer(ipData);
    buffer.PutAll(p.header);
    buffer.PutAll(p.data);
    ghost var b := p.header + p.data;
    assert ipData[..] == b by {
      assert ipData[..] == ipData[..buffer.position];
    }
    hide Payload;
    var addresses := ReadAddresses(buffer);
    if addresses.None? {
      return Failed;
    }
    var (source, dest) := addresses.value;
    var ours := SameAddress(device, dest);
    if !ours {
      return NotForUs;
    }
    var protocol := ipData[23];
    var data := ReadPayload(buffer);
    r := if data.None? then Failed else Accepted(Info(source, dest, protocol, data.value));
  }

  method ReadAddresses(buffer: ByteBuffer) returns (r: Option<(IpAddress, IpAddress)>)
    requires buffer.Valid()
    modifies buffer`position
    ensures buffer.Valid()
    ensures r == if buffer.store.Length < 34 then None else Some((buffer.store[26..30], buffer.store[30..34]))
  {
    var ok := buffer.SetPosition(26);
    if !ok {
      return None;
    }
    var source := buffer.GetAll(4);
    if source.None? {
      return None;
    }
    ok := buffer.SetPosition(30);
    var dest := buffer.GetAll(4);
    r := if dest.None? then None else Some((source.value, dest.value));
  }

  method SameAddress(a: IpAddress, b: IpAddress) returns (same: bool)
    ensures same <==> a == b
  {
    for i := 0 to 4
      invariant a[..i] == b[..i]
    {
      if a[i] != b[i] {
        return false;
      }
    }
    assert a[..4] == a && b[..4] == b;
    same := true;
  }

  method ReadPayload(buffer: ByteBuffer) returns (r: Option<seq<byte>>)
    requires buffer.Valid() && buffer.store.Length >= 34
    modifies buffer`position
    ensures r == Payload(buffer.store[..])
  {
    hide Short, WordAt;
    var headerBytes := buffer.store[14] as int % 16 * 4;
    var totalLength := Short(WordAt(buffer.store[..], 16));
    var dataLength := totalLength - headerBytes;
    if dataLength < 0 {
      return None;
    }
    var ok := buffer.SetPosition(headerBytes + 14);
    if !ok {
      return None;
    }
    r := buffer.GetAll(dataLength);
  }
}
