/** The read client of src/Application/TFTPClient.java. */
module Tftp {
  import opened Bytes
  import opened ByteBuffers
  import opened Packets
  import Ip
  import Udp

  const OPCODE_READ := 1
  const OPCODE_DATA := 3
  const OPCODE_ACK := 4
  const BLOCK_SIZE := 512
  const CLIENT_PORT := 60706
  const FAKE_SOURCE: IpAddress := [192, 168, 1, 102]

  /** The client after `getFile`: the block counter is a short, `open` is the file stream,
      `sent` the IP packets passed to `sendData`. */
  datatype State = State(block: int, serverPort: nat, file: seq<byte>, open: bool, sent: seq<seq<byte>>)

  /** A UDP datagram as `handleData` gets it; the source port is a short. */
  datatype Incoming = Incoming(sourcePort: int, data: Option<seq<byte>>)

  datatype Config = Config(server: IpAddress, device: IpAddress)

  function Ack(block: int): (r: seq<byte>)
    ensures |r| == 4
  {
    Be16(OPCODE_ACK) + Be16(block)
  }

  function IpFields(c: Config, length: int): Ip.Fields {
    Ip.Fields(Some(length), Some(17), Some(FAKE_SOURCE), Some(c.server), None, None, None, None, None, None)
  }

  /** The IP packet of an acknowledgement. */
  function AckPacket(c: Config, port: nat, block: int): seq<byte> {
    Ip.Header(IpFields(c, 12), c.device) + Udp.Datagram(CLIENT_PORT, port, Ack(block))
  }

  /** `netascii` */
  const MODE: seq<byte> := [110, 101, 116, 97, 115, 99, 105, 105]

  /** A read request for a file whose name is given as bytes. */
  function ReadRequest(filename: seq<byte>): (r: seq<byte>)
    ensures |r| == 12 + |filename|
  {
    Be16(OPCODE_READ) + filename + [0] + MODE + [0]
  }

  /** The IP packet of a read request, unless the request does not fit a datagram. */
  function ReadPacket(c: Config, port: nat, filename: seq<byte>): Built {
    var udp := Udp.Created(Udp.Fields(Some(CLIENT_PORT), Some(port), Some(ReadRequest(filename))));
    if !udp.Made? then udp else Made(Ip.Header(IpFields(c, |udp.bytes|), c.device) + udp.bytes)
  }

  // ---------- One packet ----------

  /** `handleDataPacket` on the bytes behind the opcode and block number. */
  function OnData(c: Config, s: State, block: int, content: seq<byte>): State {
    var file := if s.open then s.file + content else s.file;
    if |content| == BLOCK_SIZE then
      State(Short(block + 1), s.serverPort, file, s.open, s.sent + [AckPacket(c, s.serverPort, block)])
    else if |content| < BLOCK_SIZE then
      State(1, s.serverPort, file, false, s.sent + [AckPacket(c, s.serverPort, block)])
    else State(block, s.serverPort, file, s.open, s.sent)
  }

  /** A DATA packet that is long enough for its block number. */
  predicate IsData(p: Incoming) {
    p.data.Some? && |p.data.value| >= 4 && WordAt(p.data.value, 0) == OPCODE_DATA
  }

  /** `handleData` */
  function Handle(c: Config, s: State, p: Incoming): State {
    if p.data.None? then s
    else
      var t := s.(serverPort := Unsigned16(p.sourcePort));
      if IsData(p) then OnData(c, t, Short(WordAt(p.data.value, 2)), p.data.value[4..]) else t
  }

  class Client {
    const config: Config
    var dataBlock: int
    var serverPort: nat
    var file: seq<byte>
    var open: bool
    var sent: seq<seq<byte>>

    ghost function Abstract(): State
      reads this
    {
      State(dataBlock, serverPort, file, open, sent)
    }

    /** The constructor, then `getFile` with its file created; the read request is not logged. */
    constructor (config: Config)
      ensures this.config == config && Abstract() == Start()
    {
      this.config := config;
      dataBlock := 1;
      serverPort := 69;
      file, open := [], true;
      sent := [];
    }

    /** `sendReadPacket`, with what it hands to `sendData` or the exception it throws. */
    method SendReadPacket(filename: seq<byte>) returns (r: Built)
      ensures r == ReadPacket(config, serverPort, filename)
    {
      var store := new byte[2 + |filename| + 1 + 8 + 1](_ => 0);
      var buffer := new ByteBuffer(store);
      hide Be16, Ip.Header, Udp.Datagram;
      buffer.PutShort(OPCODE_READ);
      buffer.PutAll(filename);
      buffer.Put(0);
      buffer.PutAll(MODE);
      buffer.Put(0);
      assert store[..] == store[..buffer.position] == ReadRequest(filename);
      var udp := Udp.CreateHeader(Udp.Fields(Some(CLIENT_PORT), Some(serverPort), Some(store[..])));
      if !udp.Made? {
        return udp;
      }
      var ip := Ip.CreateHeader(IpFields(config, |udp.bytes|), config.device);
      r := Made(ip.bytes + udp.bytes);
    }

    method HandleData(p: Incoming)
      modifies this
      ensures Abstract() == Handle(config, old(Abstract()), p)
    {
      if p.data.None? {
        return;
      }
      serverPort := Unsigned16(p.sourcePort);
      var data := new byte[|p.data.value|](i requires 0 <= i < |p.data.value| => p.data.value[i]);
      assert data[..] == p.data.value;
      var buffer := new ByteBuffer(data);
      var opCode := buffer.GetShort();
      if opCode.None? {
        return;
      }
      if opCode.value == OPCODE_DATA {
        HandleDataPacket(buffer);
      }
    }

    method HandleDataPacket(buffer: ByteBuffer)
      requires buffer.Valid() && buffer.position == 2
      modifies this, buffer`position
      ensures Abstract() == if buffer.store.Length < 4 then old(Abstract())
                            else OnData(config, old(Abstract()), Short(WordAt(buffer.store[..], 2)), buffer.store[4..])
    {
      var block := buffer.GetShort();
      if block.None? {
        return;
      }
      dataBlock := Short(block.value);
      var left := buffer.store.Length - buffer.position;
      var content := buffer.GetAll(left);
      if open {
        file := file + content.value;
      }
      if left == BLOCK_SIZE {
        SendAck();
        dataBlock := Short(dataBlock + 1);
      } else if left < BLOCK_SIZE {
        SendAck();
        open := false;
        dataBlock := 1;
      }
    }

    method SendAck()
      modifies this`sent
      ensures sent == old(sent) + [AckPacket(config, serverPort, dataBlock)]
    {
      hide Ip.Header, Udp.Datagram;
      var udp := Udp.CreateHeader(Udp.Fields(Some(CLIENT_PORT), Some(serverPort), Some(Ack(dataBlock))));
      Udp.CreatedExactly(CLIENT_PORT, serverPort, Ack(dataBlock));
      var ip := Ip.CreateHeader(IpFields(config, |udp.bytes|), config.device);
      sent := sent + [ip.bytes + udp.bytes];
    }
  }

  // ---------- Every finite sequence of packets ----------

  function Start(): State {
    State(1, 69, [], true, [])
  }

  function HandleAll(c: Config, s: State, packets: seq<Incoming>): State
    decreases |packets|
  {
    if packets == [] then s else HandleAll(c, Handle(c, s, packets[0]), packets[1..])
  }

  /** The payloads of the DATA packets, in order of arrival. */
  function Contents(packets: seq<Incoming>): seq<seq<byte>> {
    if packets == [] then []
    else (if IsData(packets[0]) then [packets[0].data.value[4..]] else []) + Contents(packets[1..])
  }

  /** Everything up to and including the first payload shorter than a block. */
  function UpToShort(contents: seq<seq<byte>>): seq<byte> {
    if contents == [] then []
    else if |contents[0]| < BLOCK_SIZE then contents[0]
    else contents[0] + UpToShort(contents[1..])
  }

  /** One acknowledgement, to the sender's port, for a DATA packet of at most 512 bytes. */
  function AcksOf(c: Config, p: Incoming): seq<seq<byte>> {
    if IsData(p) && |p.data.value| <= 4 + BLOCK_SIZE
    then [AckPacket(c, Unsigned16(p.sourcePort), WordAt(p.data.value, 2))]
    else []
  }

  function Acks(c: Config, packets: seq<Incoming>): seq<seq<byte>> {
    if packets == [] then [] else AcksOf(c, packets[0]) + Acks(c, packets[1..])
  }

  lemma AckBlockModulo(c: Config, port: nat, n: int)
    ensures AckPacket(c, port, Short(n)) == AckPacket(c, port, n)
  {
    Ip.Be16Short(n);
  }

  /** The last packet in the list that carries data, or a block of it. */
  function LastWithData(packets: seq<Incoming>): Option<Incoming> {
    if packets == [] then None
    else if packets[|packets| - 1].data.Some? then Some(packets[|packets| - 1])
    else LastWithData(packets[..|packets| - 1])
  }

  function LastData(packets: seq<Incoming>): (r: Option<Incoming>)
    ensures r.Some? ==> IsData(r.value)
  {
    if packets == [] then None
    else if IsData(packets[|packets| - 1]) then Some(packets[|packets| - 1])
    else LastData(packets[..|packets| - 1])
  }

  /** The block counter after a DATA packet: the next block, the first of another file after
      a short one, or the packet's own after one too long. */
  function BlockAfter(p: Incoming): int
    requires IsData(p)
  {
    var n := WordAt(p.data.value, 2);
    if |p.data.value| == 516 then Short(n + 1) else if |p.data.value| < 516 then 1 else Short(n)
  }

  lemma {:induction false} HandleAllLast(c: Config, s: State, packets: seq<Incoming>, p: Incoming)
    ensures HandleAll(c, s, packets + [p]) == Handle(c, HandleAll(c, s, packets), p)
    decreases |packets|
  {
    hide Handle;
    if packets == [] {
      assert [] + [p] == [p] && [p][1..] == [];
      assert HandleAll(c, Handle(c, s, p), []) == Handle(c, s, p);
    } else {
      assert (packets + [p])[1..] == packets[1..] + [p];
      HandleAllLast(c, Handle(c, s, packets[0]), packets[1..], p);
    }
  }

  /** The other fields after any packets: the port of the last one with data, the block of
      the last DATA packet, and a file that is open until a short block. */
  lemma {:induction false} FieldsFollow(c: Config, s: State, packets: seq<Incoming>)
    ensures var t, p, d := HandleAll(c, s, packets), LastWithData(packets), LastData(packets);
            && t.serverPort == (if p.Some? then p.value.sourcePort % 65536 else s.serverPort)
            && t.block == (if d.Some? then BlockAfter(d.value) else s.block)
            && (t.open <==> s.open && forall p :: p in packets && IsData(p) ==> |p.data.value| >= 516)
    decreases |packets|
  {
    if packets != [] {
      var p, before := packets[|packets| - 1], packets[..|packets| - 1];
      FieldsFollow(c, s, before);
      HandleAllLast(c, s, before, p);
      assert packets == before + [p];
      if IsData(p) {
        ShortSuccessor(WordAt(p.data.value, 2));
      }
      hide HandleAll, AckPacket, WordAt, Short;
    }
  }

  lemma ShortSuccessor(n: int)
    ensures Short(Short(n) + 1) == Short(n + 1)
  {
  }

  /** One packet, in front of whatever follows. */
  lemma OneMore(c: Config, s: State, p: Incoming, contents: seq<seq<byte>>)
    ensures var t := Handle(c, s, p);
            var mine := if IsData(p) then [p.data.value[4..]] else [];
            && t.file + (if t.open then UpToShort(contents) else [])
               == s.file + (if s.open then UpToShort(mine + contents) else [])
            && t.sent == s.sent + AcksOf(c, p)
  {
    hide AckPacket;
    if IsData(p) {
      var content := p.data.value[4..];
      AckBlockModulo(c, Unsigned16(p.sourcePort), WordAt(p.data.value, 2));
      assert ([content] + contents)[1..] == contents;
      assert s.file + (content + UpToShort(contents)) == (s.file + content) + UpToShort(contents);
    } else {
      assert [] + contents == contents;
    }
  }

  /** With no assumption on delivery: the file is the concatenation of the payloads up to
      the first short one, and what is sent are the acknowledgements of all of them. */
  lemma {:induction false} LogRefinement(c: Config, s: State, packets: seq<Incoming>)
    ensures var t := HandleAll(c, s, packets);
            && t.file == s.file + (if s.open then UpToShort(Contents(packets)) else [])
            && t.sent == s.sent + Acks(c, packets)
    decreases |packets|
  {
    if packets != [] {
      OneMore(c, s, packets[0], Contents(packets[1..]));
      LogRefinement(c, Handle(c, s, packets[0]), packets[1..]);
      hide Handle, AcksOf, UpToShort, IsData;
      assert s.sent + (AcksOf(c, packets[0]) + Acks(c, packets[1..]))
          == (s.sent + AcksOf(c, packets[0])) + Acks(c, packets[1..]);
    }
  }
}
