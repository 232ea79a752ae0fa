/** The client of src/Application/DHCPApplication.java: its messages and its state machine. */
module Dhcp {
  import opened Bytes
  import opened ByteBuffers
  import opened DhcpOptions
  import opened Packets
  import Ip
  import Udp

  const FIRST_PART_LENGTH := 236
  const OPTIONS_OFFSET := 240
  const MAGIC_COOKIE: seq<byte> := [0x63, 0x82, 0x53, 0x63]
  const HOST_NAME: seq<byte> := [99, 104, 101, 114, 114, 121, 89, 97, 110, 103]
  const VENDOR: seq<byte> := [0x4d, 0x53, 0x46, 0x54, 0x20, 0x35, 0x2e, 0x30]
  const PARAMETERS: seq<byte> := [1, 3, 6, 15, 31, 33, 43, 44, 46, 47, 119, 121, 249, 252]
  const MAX_MESSAGE_SIZE := 1500
  const LEASE_TIME := 7776000
  const CLIENT_PORT := 68
  const SERVER_PORT := 67
  const NOWHERE: IpAddress := [0, 0, 0, 0]
  const EVERYONE: IpAddress := [255, 255, 255, 255]

  datatype Config = Config(transactionId: int, mac: MacAddress, device: IpAddress)

  // ---------- Messages ----------

  /** The fixed part of a BOOTP request (section 2 of RFC 2131). */
  function FirstPart(c: Config): (r: seq<byte>)
    ensures |r| == FIRST_PART_LENGTH
  {
    [1, 1, 6, 0] + Be32(c.transactionId) + Zeros(20) + c.mac + Zeros(202)
  }

  method ConstructFirstPart(c: Config) returns (r: seq<byte>)
    ensures r == FirstPart(c)
  {
    hide Be32;
    var store := new byte[FIRST_PART_LENGTH](_ => 0);
    var buffer := new ByteBuffer(store);
    buffer.PutAll([1, 1, 6, 0]);
    buffer.PutInt(c.transactionId);
    PutNothingYet(buffer);
    buffer.PutAll(c.mac);
    PutEmptyFields(buffer);
    assert store[..] == store[..236];
    r := store[..];
  }

  /** The rest of chaddr, sname and file. */
  method PutEmptyFields(buffer: ByteBuffer)
    requires buffer.Valid() && buffer.position + 202 <= buffer.store.Length
    modifies buffer`position, buffer.store
    ensures buffer.Valid() && buffer.position == old(buffer.position) + 202
    ensures buffer.store[..buffer.position] == old(buffer.store[..buffer.position]) + Zeros(202)
  {
    buffer.PutAll(Zeros(10));
    buffer.PutAll(Zeros(64));
    buffer.PutAll(Zeros(128));
    assert Zeros(10) + Zeros(64) + Zeros(128) == Zeros(202);
  }

  /** Seconds, flags and the four addresses, none of which is set. */
  method PutNothingYet(buffer: ByteBuffer)
    requires buffer.Valid() && buffer.position + 20 <= buffer.store.Length
    modifies buffer`position, buffer.store
    ensures buffer.Valid() && buffer.position == old(buffer.position) + 20
    ensures buffer.store[..buffer.position] == old(buffer.store[..buffer.position]) + Zeros(20)
  {
    ZeroShort();
    hide Be16;
    buffer.PutShort(0);
    buffer.PutShort(0);
    buffer.PutAll(NOWHERE);
    buffer.PutAll(NOWHERE);
    buffer.PutAll(NOWHERE);
    buffer.PutAll(NOWHERE);
  }

  lemma ZeroShort()
    ensures Be16(0) == [0, 0]
  {
  }

  /** What both kinds of message tell about the client; option 50 is followed by four zero
      bytes in a Request, because its array is sized twice for the address. */
  function CommonOptions(kind: byte, mac: MacAddress, ip: IpAddress, pads: nat): seq<Opt> {
    [Opt(53, [kind]), Opt(61, [1] + mac), Opt(50, ip)] + seq(pads, _ => Pad)
    + [Opt(12, HOST_NAME), Opt(60, VENDOR), Opt(55, PARAMETERS)]
  }

  function DiscoverList(c: Config): seq<Opt> {
    CommonOptions(1, c.mac, c.device, 0)
  }

  function RequestList(c: Config, offered: IpAddress): seq<Opt> {
    CommonOptions(3, c.mac, offered, 4) + [Opt(57, Be16(MAX_MESSAGE_SIZE)), Opt(51, Be32(LEASE_TIME))]
  }

  /** The options, End, and three bytes of padding. */
  function OptionsPart(opts: seq<Opt>): seq<byte> {
    Encode(opts) + [END] + Zeros(3)
  }

  /** One option in an array of the given size, the rest of which stays zero. */
  method BuildOption(code: byte, data: seq<byte>, size: nat) returns (r: seq<byte>)
    requires |data| <= 255 && 2 + |data| <= size
    ensures r == EncodeOne(Opt(code, data)) + Zeros(size - 2 - |data|)
  {
    var store := new byte[size](_ => 0);
    var buffer := new ByteBuffer(store);
    PutOption(buffer, code, data);
    hide EncodeOne;
    assert store[..] == store[..buffer.position] + store[buffer.position..];
    assert store[buffer.position..] == Zeros(size - 2 - |data|);
    r := store[..];
  }

  /** Type, length and data at the start of a buffer. */
  method PutOption(buffer: ByteBuffer, code: byte, data: seq<byte>)
    requires buffer.Valid() && buffer.position == 0 && |data| <= 255 && 2 + |data| <= buffer.store.Length
    modifies buffer`position, buffer.store
    ensures buffer.Valid() && buffer.position == 2 + |data|
    ensures buffer.store[..buffer.position] == EncodeOne(Opt(code, data))
    ensures forall i :: buffer.position <= i < buffer.store.Length ==> buffer.store[i] == old(buffer.store[i])
  {
    var n := |data| as byte;
    assert EncodeOne(Opt(code, data)) == [code, n] + data;
    hide EncodeOne;
    buffer.Put(code);
    buffer.Put(n);
    assert buffer.store[..2] == [code, n];
    buffer.PutAll(data);
  }

  function Joined(pieces: seq<seq<byte>>): seq<byte> {
    if pieces == [] then [] else pieces[0] + Joined(pieces[1..])
  }

  /** Puts the pieces one behind the other into an array of their total size. */
  method PutPieces(pieces: seq<seq<byte>>) returns (r: seq<byte>)
    ensures r == Joined(pieces)
  {
    var store := new byte[|Joined(pieces)|](_ => 0);
    var buffer := new ByteBuffer(store);
    for k := 0 to |pieces|
      invariant buffer.Valid() && buffer.store == store && fresh(buffer) && fresh(store)
      invariant store[..buffer.position] + Joined(pieces[k..]) == Joined(pieces)
    {
      assert pieces[k..][1..] == pieces[k + 1..];
      ghost var before := store[..buffer.position];
      assert before + (pieces[k] + Joined(pieces[k + 1..])) == (before + pieces[k]) + Joined(pieces[k + 1..]);
      buffer.PutAll(pieces[k]);
    }
    assert store[..buffer.position] + [] == Joined(pieces);
    assert store[..] == store[..buffer.position];
    r := store[..];
  }

  lemma {:induction false} JoinedConcat(a: seq<seq<byte>>, b: seq<seq<byte>>)
    ensures Joined(a + b) == Joined(a) + Joined(b)
  {
    if a == [] {
      assert a + b == b;
    } else {
      assert (a + b)[1..] == a[1..] + b;
      JoinedConcat(a[1..], b);
    }
  }

  lemma {:induction false} EncodeConcat(a: seq<Opt>, b: seq<Opt>)
    ensures Encode(a + b) == Encode(a) + Encode(b)
  {
    if a == [] {
      assert a + b == b;
    } else {
      assert (a + b)[1..] == a[1..] + b;
      EncodeConcat(a[1..], b);
    }
  }

  lemma {:induction false} EncodePads(n: nat)
    ensures Encode(seq(n, _ => Pad)) == Zeros(n)
  {
    if n > 0 {
      EncodePads(n - 1);
      assert seq(n, _ => Pad)[1..] == seq(n - 1, _ => Pad);
    }
  }

  lemma TwoPieces(x: seq<byte>, y: seq<byte>)
    ensures Joined([x, y]) == x + y
  {
    assert [x, y][1..] == [y] && [y][1..] == [];
    assert Joined([y]) == y + [] == y;
  }

  lemma ThreePieces(x: seq<byte>, y: seq<byte>, z: seq<byte>)
    ensures Joined([x, y, z]) == x + y + z
  {
    assert [x, y, z][1..] == [y, z];
    TwoPieces(y, z);
  }

  lemma TwoOptions(x: Opt, y: Opt)
    ensures Encode([x, y]) == EncodeOne(x) + EncodeOne(y)
  {
    assert [x, y][1..] == [y] && [y][1..] == [];
    assert Encode([y]) == EncodeOne(y) + [] == EncodeOne(y);
  }

  lemma ThreeOptions(x: Opt, y: Opt, z: Opt)
    ensures Encode([x, y, z]) == EncodeOne(x) + EncodeOne(y) + EncodeOne(z)
  {
    assert [x, y, z][1..] == [y, z];
    TwoOptions(y, z);
  }

  /** The options that both message builders have in common, as separate arrays. */
  method BuildCommon(kind: byte, mac: MacAddress, ip: IpAddress, pads: nat) returns (pieces: seq<seq<byte>>)
    ensures Joined(pieces) == Encode(CommonOptions(kind, mac, ip, pads))
  {
    hide EncodeOne, Encode, Joined, Zeros;
    var messageType := BuildOption(53, [kind], 3);
    var identifier := BuildOption(61, [1] + mac, 9);
    var requestedIp := BuildOption(50, ip, 6 + pads);
    var hostName := BuildOption(12, HOST_NAME, 12);
    var vendor := BuildOption(60, VENDOR, 10);
    var parameters := BuildOption(55, PARAMETERS, 16);
    pieces := [messageType, identifier, requestedIp] + [hostName, vendor, parameters];
    JoinedConcat([messageType, identifier, requestedIp], [hostName, vendor, parameters]);
    ThreePieces(messageType, identifier, requestedIp);
    ThreePieces(hostName, vendor, parameters);
    CommonEncoded(kind, mac, ip, pads);
  }

  lemma NoZeros(s: seq<byte>)
    ensures s + Zeros(0) == s
  {
  }

  lemma CommonEncoded(kind: byte, mac: MacAddress, ip: IpAddress, pads: nat)
    ensures Encode(CommonOptions(kind, mac, ip, pads))
         == ((EncodeOne(Opt(53, [kind])) + Zeros(0)) + (EncodeOne(Opt(61, [1] + mac)) + Zeros(0))
             + (EncodeOne(Opt(50, ip)) + Zeros(pads)))
          + ((EncodeOne(Opt(12, HOST_NAME)) + Zeros(0)) + (EncodeOne(Opt(60, VENDOR)) + Zeros(0))
             + (EncodeOne(Opt(55, PARAMETERS)) + Zeros(0)))
  {
    hide EncodeOne, Encode, Zeros;
    SixEncoded(Opt(53, [kind]), Opt(61, [1] + mac), Opt(50, ip), pads, Opt(12, HOST_NAME), Opt(60, VENDOR),
               Opt(55, PARAMETERS));
    NoZeros(EncodeOne(Opt(53, [kind])));
    NoZeros(EncodeOne(Opt(61, [1] + mac)));
    NoZeros(EncodeOne(Opt(12, HOST_NAME)));
    NoZeros(EncodeOne(Opt(60, VENDOR)));
    NoZeros(EncodeOne(Opt(55, PARAMETERS)));
  }

  lemma SixEncoded(a: Opt, b: Opt, c: Opt, pads: nat, x: Opt, y: Opt, z: Opt)
    ensures Encode([a, b, c] + seq(pads, _ => Pad) + [x, y, z])
         == (EncodeOne(a) + EncodeOne(b) + (EncodeOne(c) + Zeros(pads))) + (EncodeOne(x) + EncodeOne(y) + EncodeOne(z))
  {
    hide EncodeOne, Encode, Zeros;
    EncodeConcat([a, b, c] + seq(pads, _ => Pad), [x, y, z]);
    EncodeConcat([a, b, c], seq(pads, _ => Pad));
    ThreeOptions(a, b, c);
    ThreeOptions(x, y, z);
    EncodePads(pads);
    Regroup(EncodeOne(a) + EncodeOne(b), EncodeOne(c), Zeros(pads));
  }

  lemma Regroup(a: seq<byte>, b: seq<byte>, c: seq<byte>)
    ensures (a + b) + c == a + (b + c)
  {
  }

  /** `constructDHCPOptionsPart`: the options of the Discover message. */
  method ConstructDiscoverOptions(c: Config) returns (r: seq<byte>)
    ensures r == OptionsPart(DiscoverList(c))
  {
    var common := BuildCommon(1, c.mac, c.device, 0);
    JoinedConcat(common, [[END], Zeros(3)]);
    TwoPieces([END], Zeros(3));
    r := PutPieces(common + [[END], Zeros(3)]);
    assert r == Encode(DiscoverList(c)) + ([END] + Zeros(3));
  }

  /** `constructDHCPRequestOptions` for the address the server offered. */
  method ConstructRequestOptions(c: Config, offered: IpAddress) returns (r: seq<byte>)
    ensures r == OptionsPart(RequestList(c, offered))
  {
    hide EncodeOne, Encode, Joined, CommonOptions, Be16, Be32;
    var common := BuildCommon(3, c.mac, offered, 4);
    var maximumSize := BuildOption(57, Be16(MAX_MESSAGE_SIZE), 4);
    var leaseTime := BuildOption(51, Be32(LEASE_TIME), 6);
    NoZeros(EncodeOne(Opt(57, Be16(MAX_MESSAGE_SIZE))));
    NoZeros(EncodeOne(Opt(51, Be32(LEASE_TIME))));
    var tail := [maximumSize, leaseTime] + [[END], Zeros(3)];
    r := PutPieces(common + tail);
    JoinedConcat(common, tail);
    JoinedConcat([maximumSize, leaseTime], [[END], Zeros(3)]);
    TwoPieces(maximumSize, leaseTime);
    TwoPieces([END], Zeros(3));
    EncodeConcat(CommonOptions(3, c.mac, offered, 4), [Opt(57, Be16(MAX_MESSAGE_SIZE)), Opt(51, Be32(LEASE_TIME))]);
    TwoOptions(Opt(57, Be16(MAX_MESSAGE_SIZE)), Opt(51, Be32(LEASE_TIME)));
    assert r == (Encode(RequestList(c, offered)) + [END]) + Zeros(3);
  }

  // ---------- Well-formedness of what is sent ----------

  function Message(c: Config, options: seq<byte>): seq<byte> {
    FirstPart(c) + MAGIC_COOKIE + options
  }

  lemma OptionsAt(c: Config, opts: seq<Opt>)
    requires AllLegal(opts)
    ensures var m := Message(c, OptionsPart(opts));
            && |m| == OPTIONS_OFFSET + |OptionsPart(opts)|
            && m[..236] == FirstPart(c)
            && m[236..240] == [0x63, 0x82, 0x53, 0x63]
            && Parse(m, OPTIONS_OFFSET) == Some(WithoutPads(opts))
  {
    var m := Message(c, OptionsPart(opts));
    var body := Encode(opts) + [END];
    assert m[240..240 + |body|] == body;
    ParseEncode(m, OPTIONS_OFFSET, opts);
  }

  /** The six options that every message is meant to carry: type, client, address, host name
      "cherryYang", vendor "MSFT 5.0" and the parameters asked for. */
  function SixOptions(kind: byte, c: Config, ip: IpAddress): seq<Opt> {
    [Opt(53, [kind]), Opt(61, [1] + c.mac), Opt(50, ip),
     Opt(12, [99, 104, 101, 114, 114, 121, 89, 97, 110, 103]),
     Opt(60, [0x4d, 0x53, 0x46, 0x54, 0x20, 0x35, 0x2e, 0x30]),
     Opt(55, [1, 3, 6, 15, 31, 33, 43, 44, 46, 47, 119, 121, 249, 252])]
  }

  /** A Discover (type 1) asks for the address the device has. */
  function DiscoverOptions(c: Config): seq<Opt> {
    SixOptions(1, c, c.device)
  }

  /** A Request (type 3) also states a message size of 1500 and a lease of 7776000 seconds. */
  function RequestOptions(c: Config, offered: IpAddress): seq<Opt> {
    SixOptions(3, c, offered) + [Opt(57, [0x05, 0xdc]), Opt(51, [0x00, 0x76, 0xa7, 0x00])]
  }

  /** A BOOTP request of this client (section 2 of RFC 2131), byte by byte up to its options:
      nothing is set but the header, the transaction id, the MAC and the cookie. */
  predicate IsBootp(c: Config, m: seq<byte>) {
    && |m| >= 240
    && m[..4] == [1, 1, 6, 0]
    && DwordAt(m, 4) == c.transactionId % 0x1_0000_0000
    && (forall i :: 8 <= i < 28 ==> m[i] == 0)
    && m[28..34] == c.mac
    && (forall i :: 34 <= i < 236 ==> m[i] == 0)
    && m[236..240] == [0x63, 0x82, 0x53, 0x63]
  }

  lemma FirstPartBytes(c: Config, m: seq<byte>)
    requires |m| >= 240 && m[..236] == FirstPart(c) && m[236..240] == [0x63, 0x82, 0x53, 0x63]
    ensures IsBootp(c, m)
  {
    var f := FirstPart(c);
    assert f[4..8] == Be32(c.transactionId);
    Be32Value(c.transactionId);
    hide Be32;
    assert f[4] == f[4..8][0] && f[5] == f[4..8][1] && f[6] == f[4..8][2] && f[7] == f[4..8][3];
    assert forall i :: 0 <= i < 236 ==> m[i] == f[i];
    assert m[..4] == f[..4] && m[28..34] == f[28..34];
  }

  /** The Request for an offer is a BOOTP request with the client's transaction id and MAC,
      the cookie at 236, and options that RFC 2132 reads as exactly these eight. */
  lemma RequestWellFormed(c: Config, offered: IpAddress)
    ensures var m := Message(c, OptionsPart(RequestList(c, offered)));
            && |m| == 314 && IsBootp(c, m)
            && Parse(m, 240) == Some(RequestOptions(c, offered))
  {
    var opts := RequestList(c, offered);
    OptionsAt(c, opts);
    RequestListWithoutPads(c, offered);
    RequestSize(c, offered);
    hide Message, FirstPart, OptionsPart, RequestList, WithoutPads;
    FirstPartBytes(c, Message(c, OptionsPart(opts)));
  }

  /** The Discover is a BOOTP request too, with exactly the six options of its kind. */
  lemma DiscoverWellFormed(c: Config)
    ensures var m := Message(c, OptionsPart(DiscoverList(c)));
            && |m| == 300 && IsBootp(c, m)
            && Parse(m, 240) == Some(DiscoverOptions(c))
  {
    var opts := DiscoverList(c);
    OptionsAt(c, opts);
    DiscoverListWithoutPads(c);
    DiscoverSize(c);
    hide Message, FirstPart, OptionsPart, DiscoverList, WithoutPads;
    FirstPartBytes(c, Message(c, OptionsPart(opts)));
  }

  lemma DiscoverListWithoutPads(c: Config)
    ensures WithoutPads(DiscoverList(c)) == DiscoverOptions(c)
  {
    var a := [Opt(53, [1]), Opt(61, [1] + c.mac), Opt(50, c.device)];
    var b := [Opt(12, HOST_NAME), Opt(60, VENDOR), Opt(55, PARAMETERS)];
    PadsVanish(a, 0, b);
    assert DiscoverList(c) == a + seq(0, _ => Pad) + b;
  }

  lemma RequestListWithoutPads(c: Config, offered: IpAddress)
    ensures WithoutPads(RequestList(c, offered))
         == RequestOptions(c, offered)
  {
    var x, y := Opt(57, Be16(1500)), Opt(51, Be32(7776000));
    var a := [Opt(53, [3]), Opt(61, [1] + c.mac), Opt(50, offered)];
    var b := [Opt(12, HOST_NAME), Opt(60, VENDOR), Opt(55, PARAMETERS), x, y];
    PadsVanish(a, 4, b);
    assert RequestList(c, offered) == a + seq(4, _ => Pad) + b;
    assert Be16(1500) == [0x05, 0xdc] && Be32(7776000) == [0x00, 0x76, 0xa7, 0x00];
  }

  lemma {:induction false} NoPadsKept(a: seq<Opt>, b: seq<Opt>)
    requires forall i :: 0 <= i < |a| ==> a[i].Opt?
    ensures WithoutPads(a + b) == a + WithoutPads(b)
  {
    if a == [] {
      assert a + b == b;
    } else {
      assert (a + b)[1..] == a[1..] + b;
      NoPadsKept(a[1..], b);
      assert [a[0]] + (a[1..] + WithoutPads(b)) == a + WithoutPads(b);
    }
  }

  lemma {:induction false} LeadingPads(n: nat, b: seq<Opt>)
    ensures WithoutPads(seq(n, _ => Pad) + b) == WithoutPads(b)
  {
    var all := seq(n, _ => Pad) + b;
    if n == 0 {
      assert all == b;
    } else {
      assert all[1..] == seq(n - 1, _ => Pad) + b;
      LeadingPads(n - 1, b);
      assert [] + WithoutPads(b) == WithoutPads(b);
    }
  }

  lemma PadsVanish(a: seq<Opt>, n: nat, b: seq<Opt>)
    requires forall i :: 0 <= i < |a| ==> a[i].Opt?
    requires forall i :: 0 <= i < |b| ==> b[i].Opt?
    ensures WithoutPads(a + seq(n, _ => Pad) + b) == a + b
  {
    hide WithoutPads;
    NoPadsKept(a, seq(n, _ => Pad) + b);
    LeadingPads(n, b);
    NoPadsKept(b, []);
    NothingBehind();
    assert b + [] == b;
    assert a + seq(n, _ => Pad) + b == a + (seq(n, _ => Pad) + b);
  }

  lemma NothingBehind()
    ensures WithoutPads([]) == []
  {
  }

  lemma RequestSize(c: Config, offered: IpAddress)
    ensures |OptionsPart(RequestList(c, offered))| == 74
  {
    var x, y := Opt(57, Be16(MAX_MESSAGE_SIZE)), Opt(51, Be32(LEASE_TIME));
    EncodeConcat(CommonOptions(3, c.mac, offered, 4), [x, y]);
    TwoOptions(x, y);
    CommonEncoded(3, c.mac, offered, 4);
  }

  // ---------- The state machine ----------

  /** The IP packet in which a message is broadcast. */
  function Wrapped(c: Config, message: seq<byte>): Built {
    var udp := Udp.Created(Udp.Fields(Some(CLIENT_PORT), Some(SERVER_PORT), Some(message)));
    if !udp.Made? then udp
    else
      Made(Ip.Header(IpFields(|udp.bytes|), c.device) + udp.bytes)
  }

  function IpFields(length: int): Ip.Fields {
    Ip.Fields(Some(length), Some(17), Some(NOWHERE), Some(EVERYONE), None, None, Some(CLIENT_PORT), None, None, None)
  }

  function DiscoverPacket(c: Config): Built {
    Wrapped(c, Message(c, OptionsPart(DiscoverList(c))))
  }

  function RequestPacket(c: Config, offered: IpAddress): Built {
    Wrapped(c, Message(c, OptionsPart(RequestList(c, offered))))
  }

  /** The mutable fields, and the packets handed to `broadCast` so far. */
  datatype State = State(current: int, supplied: Option<IpAddress>, options: seq<byte>, sent: seq<Built>)

  function Initial(c: Config): State {
    State(DISCOVER_STATE, None, OptionsPart(DiscoverList(c)), [])
  }

  /** The outcome of `readFirstPart`, with what it stored in server_supply_ip. */
  datatype FirstOutcome = NotAReply | TooShort(stored: Option<IpAddress>) | Reply(offered: IpAddress)

  function ReadFirst(data: seq<byte>): FirstOutcome {
    if |data| < 1 then TooShort(None)
    else if data[0] != 2 then NotAReply
    else if |data| < 20 then TooShort(None)
    else if |data| < 24 then TooShort(Some(data[16..20]))
    else Reply(data[16..20])
  }

  /** The state that the options of a reply lead to, and whether they were read to the end. */
  function AfterOptions(data: seq<byte>, current: int): Outcome {
    if |data| < OPTIONS_OFFSET then Outcome(current, false) else ReadOptions(data, OPTIONS_OFFSET, current)
  }

  /** `handleData` */
  function Handle(c: Config, s: State, data: seq<byte>): State {
    var first := ReadFirst(data);
    if first.NotAReply? then s
    else if first.TooShort? then
      if first.stored.Some? then s.(supplied := first.stored) else s
    else
      var after := AfterOptions(data, s.current);
      var t := s.(supplied := Some(first.offered), current := after.state);
      if after.finished && after.state == REQUESTING_STATE then
        t.(options := OptionsPart(RequestList(c, first.offered)), sent := s.sent + [RequestPacket(c, first.offered)])
      else t
  }

  class Client {
    const config: Config
    const firstPart: seq<byte>
    var current: int
    var supplied: Option<IpAddress>
    var optionsPart: seq<byte>
    var sent: seq<Built>

    ghost predicate Valid() {
      firstPart == FirstPart(config)
    }

    ghost function Abstract(): State
      reads this
    {
      State(current, supplied, optionsPart, sent)
    }

    constructor (config: Config)
      ensures this.config == config && Valid() && Abstract() == Initial(config)
    {
      this.config := config;
      var first := ConstructFirstPart(config);
      firstPart := first;
      var options := ConstructDiscoverOptions(config);
      optionsPart := options;
      current, supplied, sent := DISCOVER_STATE, None, [];
    }

    /** Cookie and options behind the fixed part, then the UDP and IP headers, broadcast. */
    method SendMessage(options: seq<byte>)
      requires Valid()
      modifies this`sent
      ensures sent == old(sent) + [Wrapped(config, Message(config, options))]
    {
      var message := firstPart + MAGIC_COOKIE + options;
      var udp := Udp.CreateHeader(Udp.Fields(Some(CLIENT_PORT), Some(SERVER_PORT), Some(message)));
      if !udp.Made? {
        sent := sent + [udp];
        return;
      }
      var ip := Ip.CreateHeader(IpFields(|udp.bytes|), config.device);
      sent := sent + [Made(ip.bytes + udp.bytes)];
    }

    /** `dhcpDiscovery` */
    method Discovery()
      requires Valid() && optionsPart == OptionsPart(DiscoverList(config))
      modifies this`sent
      ensures Abstract() == old(Abstract()).(sent := old(sent) + [DiscoverPacket(config)])
    {
      SendMessage(optionsPart);
    }

    /** `dhcpRequest` */
    method Request()
      requires Valid()
      modifies this
      ensures Abstract() == if old(supplied).None? then old(Abstract())
                            else old(Abstract()).(options := OptionsPart(RequestList(config, old(supplied).value)),
                                                  sent := old(sent) + [RequestPacket(config, old(supplied).value)])
    {
      if supplied.None? {
        return;
      }
      var options := ConstructRequestOptions(config, supplied.value);
      optionsPart := options;
      SendMessage(optionsPart);
    }

    /** `readFirstPart`; false also when it throws. */
    method ReadFirstPart(data: array<byte>) returns (ok: bool)
      modifies this`supplied
      ensures var first := ReadFirst(data[..]);
              && ok == first.Reply?
              && supplied == if first.Reply? then Some(first.offered)
                             else if first.TooShort? && first.stored.Some? then first.stored
                             else old(supplied)
    {
      var buffer := new ByteBuffer(data);
      if data.Length < 1 || data[0] != 2 {
        return false;
      }
      ok := buffer.SetPosition(16);
      if !ok {
        return;
      }
      var yours := buffer.GetAll(4);
      if yours.None? {
        return false;
      }
      supplied := Some(yours.value);
      ok := buffer.SetPosition(20);
      var next := buffer.GetAll(4);
      ok := next.Some?;
    }

    method HandleData(data: array<byte>)
      requires Valid()
      modifies this
      ensures Abstract() == Handle(config, old(Abstract()), data[..])
    {
      hide ReadOptions, RequestList, OptionsPart, RequestPacket;
      var ok := ReadFirstPart(data);
      if !ok {
        return;
      }
      var buffer := new ByteBuffer(data);
      ok := buffer.SetPosition(OPTIONS_OFFSET);
      if !ok {
        return;
      }
      var after := ReadOptionsLoop(buffer, current);
      current := after.state;
      if after.finished && current == REQUESTING_STATE {
        Request();
      }
    }
  }

  // ---------- Every run ----------

  function HandleAll(c: Config, s: State, replies: seq<seq<byte>>): State
    decreases |replies|
  {
    if replies == [] then s else HandleAll(c, Handle(c, s, replies[0]), replies[1..])
  }

  /** The options only ever lead to REQUESTING or ACK. */
  lemma {:induction false} OptionsLeaveDiscover(msg: seq<byte>, pos: nat, state: int)
    ensures var t := ReadOptions(msg, pos, state).state;
            t == state || t == 1 || t == 5
    decreases if pos < |msg| then |msg| - pos else 0
  {
    var turn := ReadOption(msg, pos);
    if turn.Continue? {
      OptionsLeaveDiscover(msg, turn.next, NextState(state, turn.kind));
    }
  }

  /** Once left, DISCOVER never comes back; no other state is ever entered. */
  lemma {:induction false} NeverDiscoverAgain(c: Config, s: State, replies: seq<seq<byte>>)
    ensures var t := HandleAll(c, s, replies).current;
            t == s.current || t == 1 || t == 5
    decreases |replies|
  {
    if replies != [] {
      var data := replies[0];
      OptionsLeaveDiscover(data, OPTIONS_OFFSET, s.current);
      hide ReadOptions, RequestPacket, RequestList, OptionsPart;
      NeverDiscoverAgain(c, Handle(c, s, data), replies[1..]);
    }
  }

  /** A broadcast packet of this client around a message: from 0.0.0.0, port 68, to
      255.255.255.255, port 67, by UDP. */
  predicate IsBroadcastOf(packet: Built, message: seq<byte>) {
    && packet.Made? && |packet.bytes| == 28 + |message| && packet.bytes[28..] == message
    && packet.bytes[0] == 0x45 && WordAt(packet.bytes, 2) == 28 + |message| && packet.bytes[9] == 17
    && packet.bytes[12..16] == [0, 0, 0, 0] && packet.bytes[16..20] == [255, 255, 255, 255]
    && WordAt(packet.bytes, 20) == 68 && WordAt(packet.bytes, 22) == 67
    && WordAt(packet.bytes, 24) == 8 + |message| && WordAt(packet.bytes, 26) == 0
  }

  lemma PacketCarries(c: Config, message: seq<byte>)
    requires |message| <= 32759
    ensures IsBroadcastOf(Wrapped(c, message), message)
  {
    Udp.CreatedExactly(CLIENT_PORT, SERVER_PORT, message);
    Udp.DatagramBytes(CLIENT_PORT, SERVER_PORT, message);
    var d := Udp.Datagram(CLIENT_PORT, SERVER_PORT, message);
    Ip.HeaderBytes(IpFields(|d|), c.device);
    var h := Ip.Header(IpFields(|d|), c.device);
    assert Wrapped(c, message) == Made(h + d);
    hide Ip.Header, Udp.Datagram, Udp.Created, Wrapped;
    WrappedBytes(h, d);
    assert (h + d)[28..] == d[8..];
  }

  lemma WrappedBytes(h: seq<byte>, d: seq<byte>)
    requires |h| == 20 && |d| >= 8
    ensures (h + d)[0] == h[0] && (h + d)[9] == h[9] && WordAt(h + d, 2) == WordAt(h, 2)
    ensures (h + d)[12..16] == h[12..16] && (h + d)[16..20] == h[16..20]
    ensures WordAt(h + d, 20) == WordAt(d, 0) && WordAt(h + d, 22) == WordAt(d, 2)
    ensures WordAt(h + d, 24) == WordAt(d, 4) && WordAt(h + d, 26) == WordAt(d, 6)
  {
  }

  /** What a Request packet says: broadcast, its options ask for the offered address, and its
      transaction id is the client's. */
  lemma RequestCarries(c: Config, offered: IpAddress)
    ensures var r := RequestPacket(c, offered);
            && r.Made? && |r.bytes| == 342
            && IsBroadcastOf(r, r.bytes[28..]) && IsBootp(c, r.bytes[28..])
            && Parse(r.bytes[28..], 240) == Some(RequestOptions(c, offered))
  {
    RequestWellFormed(c, offered);
    hide Message, OptionsPart, RequestList, Parse, IsBootp, RequestOptions, Wrapped;
    PacketCarries(c, Message(c, OptionsPart(RequestList(c, offered))));
  }

  /** The same for the Discover, under the same transaction id. */
  lemma DiscoverCarries(c: Config)
    ensures var d := DiscoverPacket(c);
            && d.Made? && |d.bytes| == 328
            && IsBroadcastOf(d, d.bytes[28..]) && IsBootp(c, d.bytes[28..])
            && Parse(d.bytes[28..], 240) == Some(DiscoverOptions(c))
  {
    DiscoverWellFormed(c);
    hide Message, OptionsPart, DiscoverList, Parse, IsBootp, DiscoverOptions, Wrapped;
    PacketCarries(c, Message(c, OptionsPart(DiscoverList(c))));
  }

  lemma DiscoverSize(c: Config)
    ensures |OptionsPart(DiscoverList(c))| == 60
  {
    CommonEncoded(1, c.mac, c.device, 0);
  }

  // ---------- Runs of replies ----------

  /** A reply as section 3 of RFC 2131 has it, with options the reader handles. */
  predicate WellFormedReply(data: seq<byte>, offered: IpAddress, opts: seq<Opt>) {
    && |data| >= OPTIONS_OFFSET && data[0] == 2 && data[16..20] == offered
    && AllHandled(opts) && At(data, OPTIONS_OFFSET, Encode(opts) + [END])
  }

  /** One well-formed reply: the last offer or acknowledgement in it decides. */
  lemma ReplyDecides(c: Config, s: State, data: seq<byte>, offered: IpAddress, opts: seq<Opt>)
    requires WellFormedReply(data, offered, opts)
    ensures var t := Handle(c, s, data);
            && t.current == Decided(s.current, LastVerdict(opts))
            && t.supplied == Some(offered)
            && t.sent == s.sent + if t.current == REQUESTING_STATE then [RequestPacket(c, offered)] else []
  {
    ReaderAligned(data, OPTIONS_OFFSET, opts, s.current);
    hide ReadOptions, RequestPacket, RequestList, OptionsPart, At, Encode;
    assert AfterOptions(data, s.current) == Outcome(Decided(s.current, LastVerdict(opts)), true);
  }

  /** A datagram is a well-formed reply, or no BOOTP reply with room for options at all. */
  datatype Datagram = Noise(data: seq<byte>) | Answer(data: seq<byte>, offered: IpAddress, opts: seq<Opt>)

  predicate Plausible(d: Datagram) {
    match d
    case Noise(data) => |data| < OPTIONS_OFFSET || data[0] != 2
    case Answer(data, offered, opts) => WellFormedReply(data, offered, opts)
  }

  predicate AllPlausible(ds: seq<Datagram>) {
    forall i :: 0 <= i < |ds| ==> Plausible(ds[i])
  }

  function Datas(ds: seq<Datagram>): (r: seq<seq<byte>>)
    ensures |r| == |ds|
  {
    seq(|ds|, i requires 0 <= i < |ds| => ds[i].data)
  }

  /** The options of all replies, one list behind the other. */
  function OptionsOf(ds: seq<Datagram>): (r: seq<Opt>)
    requires AllPlausible(ds)
    ensures AllHandled(r)
  {
    if ds == [] then []
    else
      var d := ds[|ds| - 1];
      OptionsOf(ds[..|ds| - 1]) + if d.Answer? then d.opts else []
  }

  /** The addresses of the replies after which the last verdict so far is an offer. */
  function Offers(ds: seq<Datagram>): seq<IpAddress>
    requires AllPlausible(ds)
  {
    if ds == [] then []
    else
      var d := ds[|ds| - 1];
      Offers(ds[..|ds| - 1]) + if d.Answer? && LastVerdict(OptionsOf(ds)) == Some(2) then [d.offered] else []
  }

  /** A broadcast Request for this address, as RFC 2131 and RFC 2132 read it, under the
      Discover's transaction id. */
  predicate AsksFor(c: Config, packet: Built, ip: IpAddress) {
    var discover := DiscoverPacket(c);
    && packet.Made? && |packet.bytes| == 342
    && IsBroadcastOf(packet, packet.bytes[28..]) && IsBootp(c, packet.bytes[28..])
    && Parse(packet.bytes[28..], 240) == Some(RequestOptions(c, ip))
    && discover.Made? && |discover.bytes| == 328
    && DwordAt(packet.bytes, 32) == DwordAt(discover.bytes, 32)
  }

  /** What was sent since then asks for these addresses, one by one. */
  predicate AskedFor(c: Config, before: seq<Built>, after: seq<Built>, ips: seq<IpAddress>) {
    && before <= after && |after| == |before| + |ips|
    && forall i :: 0 <= i < |ips| ==> AsksFor(c, after[|before| + i], ips[i])
  }

  lemma {:induction false} HandleAllLast(c: Config, s: State, replies: seq<seq<byte>>, data: seq<byte>)
    ensures HandleAll(c, s, replies + [data]) == Handle(c, HandleAll(c, s, replies), data)
    decreases |replies|
  {
    hide Handle;
    if replies == [] {
      assert [] + [data] == [data] && [data][1..] == [];
      assert HandleAll(c, Handle(c, s, data), []) == Handle(c, s, data);
    } else {
      assert (replies + [data])[1..] == replies[1..] + [data];
      HandleAllLast(c, Handle(c, s, replies[0]), replies[1..], data);
    }
  }

  lemma NoiseIgnored(c: Config, s: State, data: seq<byte>)
    requires |data| < OPTIONS_OFFSET || data[0] != 2
    ensures Handle(c, s, data).current == s.current && Handle(c, s, data).sent == s.sent
  {
  }

  lemma {:induction false} LastVerdictConcat(a: seq<Opt>, b: seq<Opt>)
    requires AllHandled(a) && AllHandled(b) && AllHandled(a + b)
    ensures LastVerdict(a + b) == if LastVerdict(b).Some? then LastVerdict(b) else LastVerdict(a)
    decreases |b|
  {
    if b == [] {
      assert a + b == a;
    } else {
      var n := |b| - 1;
      assert (a + b)[..|a + b| - 1] == a + b[..n];
      LastVerdictConcat(a, b[..n]);
    }
  }

  /** Every run of replies from DISCOVER on, with any noise between them: the state is decided
      by the last offer or acknowledgement in all their options, and one Request goes out for
      each reply after which that is an offer, in order, for that reply's own address. */
  lemma {:induction false} RunSendsRequests(c: Config, s: State, ds: seq<Datagram>)
    requires AllPlausible(ds) && s.current == 0
    ensures var t := HandleAll(c, s, Datas(ds));
            && t.current == Decided(0, LastVerdict(OptionsOf(ds)))
            && AskedFor(c, s.sent, t.sent, Offers(ds))
    decreases |ds|
  {
    hide AsksFor, Handle, WellFormedReply, LastVerdict;
    if ds == [] {
      NoVerdict();
    } else {
      hide AskedFor, Decided;
      var d, before := ds[|ds| - 1], ds[..|ds| - 1];
      RunSendsRequests(c, s, before);
      assert Datas(ds) == Datas(before) + [d.data];
      HandleAllLast(c, s, Datas(before), d.data);
      OneMoreDatagram(c, HandleAll(c, s, Datas(before)), d, OptionsOf(before), s.sent, Offers(before));
      assert Offers(before) + [] == Offers(before);
    }
  }

  lemma NoVerdict()
    ensures LastVerdict([]) == None
  {
  }

  /** What the next datagram changes, by the options so far and its own. */
  lemma OneMoreDatagram(c: Config, t: State, d: Datagram, before: seq<Opt>, sent: seq<Built>, offers: seq<IpAddress>)
    requires Plausible(d) && AllHandled(before) && t.current == Decided(0, LastVerdict(before))
    requires AskedFor(c, sent, t.sent, offers)
    ensures var all := before + if d.Answer? then d.opts else [];
            var new_ := if d.Answer? && LastVerdict(all) == Some(2) then [d.offered] else [];
            var u := Handle(c, t, d.data);
            && u.current == Decided(0, LastVerdict(all))
            && AskedFor(c, sent, u.sent, offers + new_)
  {
    if d.Answer? {
      assert WellFormedReply(d.data, d.offered, d.opts);
      hide *;
      OneMoreAnswer(c, t, d.data, d.offered, d.opts, before, sent, offers);
    } else {
      NoiseIgnored(c, t, d.data);
      hide Plausible, Handle, LastVerdict, AskedFor;
      assert before + [] == before && offers + [] == offers;
    }
  }

  lemma OneMoreAnswer(c: Config, t: State, data: seq<byte>, offered: IpAddress, opts: seq<Opt>, before: seq<Opt>,
                      sent: seq<Built>, offers: seq<IpAddress>)
    requires WellFormedReply(data, offered, opts) && AllHandled(opts) && AllHandled(before) && AllHandled(before + opts)
    requires t.current == Decided(0, LastVerdict(before)) && AskedFor(c, sent, t.sent, offers)
    ensures var new_ := if LastVerdict(before + opts) == Some(2) then [offered] else [];
            var u := Handle(c, t, data);
            && u.current == Decided(0, LastVerdict(before + opts))
            && AskedFor(c, sent, u.sent, offers + new_)
  {
    hide WellFormedReply, Handle, LastVerdict, AskedFor, AsksFor, RequestPacket, AllHandled;
    LastVerdictConcat(before, opts);
    ReplyDecides(c, t, data, offered, opts);
    RequestAsks(c, offered);
    AskedOnceMore(c, sent, t.sent, RequestPacket(c, offered), offers, offered);
    assert offers + [] == offers;
    assert t.sent + [] == t.sent;
  }

  lemma AskedOnceMore(c: Config, sent: seq<Built>, after: seq<Built>, packet: Built, ips: seq<IpAddress>, ip: IpAddress)
    requires AskedFor(c, sent, after, ips) && AsksFor(c, packet, ip)
    ensures AskedFor(c, sent, after + [packet], ips + [ip])
  {
    hide AsksFor;
  }

  lemma RequestAsks(c: Config, offered: IpAddress)
    ensures AsksFor(c, RequestPacket(c, offered), offered)
  {
    hide RequestPacket, DiscoverPacket, Parse, RequestOptions, DiscoverOptions, IsBroadcastOf;
    RequestCarries(c, offered);
    DiscoverCarries(c);
    SameId(c, RequestPacket(c, offered).bytes, DiscoverPacket(c).bytes);
  }

  lemma SameId(c: Config, a: seq<byte>, b: seq<byte>)
    requires |a| >= 268 && |b| >= 268 && IsBootp(c, a[28..]) && IsBootp(c, b[28..])
    ensures DwordAt(a, 32) == DwordAt(b, 32)
  {
    assert DwordAt(a, 32) == DwordAt(a[28..], 4) && DwordAt(b, 32) == DwordAt(b[28..], 4);
  }

  // ---------- Any datagrams at all ----------

  /** Each packet asks for the address in some datagram, a BOOTP reply; they are as many as
      some of the datagrams and in their order. */
  predicate AnswersInOrder(c: Config, sent: seq<Built>, replies: seq<seq<byte>>)
    decreases |replies|
  {
    sent != [] ==>
      && replies != []
      && (|| AnswersInOrder(c, sent, replies[1..])
          || (&& |replies[0]| >= OPTIONS_OFFSET && replies[0][0] == 2 && AsksFor(c, sent[0], replies[0][16..20])
              && AnswersInOrder(c, sent[1..], replies[1..])))
  }

  /** Whatever arrives, nothing goes out but Requests for addresses that replies have named,
      at most one for each. */
  lemma {:induction false} SentOnlyOffers(c: Config, s: State, replies: seq<seq<byte>>)
    ensures var t := HandleAll(c, s, replies);
            s.sent <= t.sent && AnswersInOrder(c, t.sent[|s.sent|..], replies)
    decreases |replies|
  {
    if replies != [] {
      var data := replies[0];
      var t := Handle(c, s, data);
      SentOnlyOffers(c, t, replies[1..]);
      OneSent(c, s, data);
      hide Handle, AsksFor;
      if t.sent != s.sent {
        var all := HandleAll(c, s, replies).sent[|s.sent|..];
        assert all[1..] == HandleAll(c, s, replies).sent[|t.sent|..];
        assert all[0] == t.sent[|s.sent|];
      }
    }
  }

  lemma OneSent(c: Config, s: State, data: seq<byte>)
    ensures var t := Handle(c, s, data);
            || t.sent == s.sent
            || (&& |data| >= OPTIONS_OFFSET && data[0] == 2 && s.sent < t.sent && |t.sent| == |s.sent| + 1
                && AsksFor(c, t.sent[|s.sent|], data[16..20]))
  {
    hide ReadOptions, RequestPacket, RequestList, OptionsPart, AsksFor;
    if |data| >= OPTIONS_OFFSET {
      RequestAsks(c, data[16..20]);
    }
  }

  /** The address in the last datagram that is a BOOTP reply as far as byte 20. */
  function LastOffered(replies: seq<seq<byte>>): Option<IpAddress> {
    if replies == [] then None
    else
      var data := replies[|replies| - 1];
      if |data| >= 20 && data[0] == 2 then Some(data[16..20]) else LastOffered(replies[..|replies| - 1])
  }

  /** Over any datagrams, the address kept is the last one named, complete reply or not. */
  lemma {:induction false} SuppliedExactly(c: Config, s: State, replies: seq<seq<byte>>)
    ensures HandleAll(c, s, replies).supplied == if LastOffered(replies).Some? then LastOffered(replies) else s.supplied
    decreases |replies|
  {
    if replies != [] {
      var data, before := replies[|replies| - 1], replies[..|replies| - 1];
      SuppliedExactly(c, s, before);
      HandleAllLast(c, s, before, data);
      assert replies == before + [data];
      hide HandleAll, AfterOptions, RequestPacket, RequestList, OptionsPart;
    }
  }

  /** The options kept are those of the last Request: a datagram changes them only together
      with sending one. */
  lemma OptionsAreSent(c: Config, s: State, data: seq<byte>)
    ensures var t := Handle(c, s, data);
            if t.sent == s.sent then t.options == s.options
            else |t.sent| > 0 && t.sent[|t.sent| - 1].Made? && |t.sent[|t.sent| - 1].bytes| == 342
                 && t.sent[|t.sent| - 1].bytes[268..] == t.options
  {
    hide AfterOptions, RequestPacket, RequestList, OptionsPart, Wrapped, Message;
    if |data| >= 24 {
      OptionsInside(c, data[16..20]);
    }
  }

  lemma OptionsInside(c: Config, offered: IpAddress)
    ensures var r := RequestPacket(c, offered);
            r.Made? && |r.bytes| == 342 && r.bytes[268..] == OptionsPart(RequestList(c, offered))
  {
    var options := OptionsPart(RequestList(c, offered));
    RequestWellFormed(c, offered);
    PacketCarries(c, Message(c, options));
    assert Message(c, options)[240..] == options;
    hide Message, Wrapped, OptionsPart, RequestList, Parse, IsBootp;
    var b := RequestPacket(c, offered).bytes;
    assert b[268..] == b[28..][240..];
  }

  lemma {:induction false} OptionsBehind(a: seq<byte>, b: seq<byte>, pos: nat, state: int)
    requires |a| == |b| >= 8 && pos >= 8 && a[8..] == b[8..]
    ensures ReadOptions(a, pos, state) == ReadOptions(b, pos, state)
    decreases if pos < |a| then |a| - pos else 0
  {
    assert forall i :: 8 <= i < |a| ==> a[i] == a[8..][i - 8] && b[i] == b[8..][i - 8];
    assert ReadOption(a, pos) == ReadOption(b, pos);
    var turn := ReadOption(a, pos);
    hide ReadOption;
    if turn.Continue? {
      OptionsBehind(a, b, turn.next, NextState(state, turn.kind));
    }
  }

  /** The transaction id of a reply makes no difference. */
  lemma TransactionIdIgnored(c: Config, s: State, a: seq<byte>, b: seq<byte>)
    requires |a| == |b| >= 8 && a[..4] == b[..4] && a[8..] == b[8..]
    ensures Handle(c, s, a) == Handle(c, s, b)
  {
    assert a[0] == a[..4][0] == b[..4][0] == b[0];
    assert |a| >= 20 ==> a[16..20] == a[8..][8..12] == b[8..][8..12] == b[16..20];
    OptionsBehind(a, b, OPTIONS_OFFSET, s.current);
    hide ReadOptions, RequestPacket, RequestList, OptionsPart;
  }

  // ---------- The four-way exchange ----------

  /** Offer, then acknowledgement: exactly one Request goes out, for the offered address,
      and the client ends in ACK. */
  lemma Handshake(c: Config, offer: seq<byte>, offered: IpAddress, offerOpts: seq<Opt>,
                  ack: seq<byte>, granted: IpAddress, ackOpts: seq<Opt>)
    requires WellFormedReply(offer, offered, offerOpts) && LastVerdict(offerOpts) == Some(2)
    requires WellFormedReply(ack, granted, ackOpts) && LastVerdict(ackOpts) == Some(5)
    ensures var t := HandleAll(c, Initial(c), [offer, ack]);
            && t.current == 5
            && t.supplied == Some(granted)
            && t.sent == [RequestPacket(c, offered)]
  {
    var s := Initial(c);
    ReplyDecides(c, s, offer, offered, offerOpts);
    var t := Handle(c, s, offer);
    ReplyDecides(c, t, ack, granted, ackOpts);
    hide Handle, RequestPacket, WellFormedReply, LastVerdict;
    assert [offer, ack][1..] == [ack] && [ack][1..] == [];
    assert HandleAll(c, Handle(c, t, ack), []) == Handle(c, t, ack);
    assert HandleAll(c, t, [ack]) == Handle(c, t, ack);
  }
}
